/** The six-prompt entry form. The session keeps the current prompt (`step`,
    1 to 6), the chosen conversation style and the answers given so far.
    Prompts 1 to 5 each fill one answer and move on by one; prompt 6 fills
    the last answer, and saving appends the entry to the log, then starts over
    at prompt 1 with empty answers. */
module Wizard {
  import opened Calendar
  import opened Journal
  import opened EntryLog

  class Session {
    var step: int
    var styleMode: string
    var answers: Answers
    /** The entries file the session saves to. */
    const log: Log

    /** The session invariant: the prompt is one of the six, the style is
        one of those offered, every chosen activity is one of those offered,
        past the first prompt a mood emoji has been chosen, and every entry
        in the log is dated. */
    ghost predicate Valid()
      reads this, log
    {
      && log.Valid()
      && 1 <= step <= 6
      && styleMode in StyleModes
      && (forall a :: a in answers.activities ==> a in Activities)
      && (step >= 2 ==> answers.emoji.Some?)
    }

    /** A fresh session: first prompt, first style, empty answers. */
    constructor (log: Log)
      requires log.Valid()
      ensures Valid()
      ensures step == 1 && styleMode == StyleModes[0] && answers == DefaultAnswers
      ensures this.log == log
    {
      step := 1;
      styleMode := StyleModes[0];
      answers := DefaultAnswers;
      this.log := log;
    }

    /** The style select box, shown at every prompt. */
    method ChooseStyle(mode: string)
      requires Valid() && mode in StyleModes
      modifies this
      ensures Valid()
      ensures styleMode == mode && step == old(step) && answers == old(answers)
    {
      styleMode := mode;
    }

    /** Prompt 1: pressing the button of the `i`-th mood stores its emoji, and
        only it, and moves on to prompt 2. */
    method PickEmoji(i: nat)
      requires Valid() && step == 1 && i < |EmojiOptions|
      modifies this
      ensures Valid()
      ensures step == 2
      ensures answers == old(answers).(emoji := Some(EmojiOptions[i].0))
      ensures styleMode == old(styleMode)
    {
      answers := answers.(emoji := Some(EmojiOptions[i].0));
      step := step + 1;
    }

    /** Prompt 2: the multi-select of activities, which offers only the
        listed activities. */
    method EditActivities(acts: seq<string>)
      requires Valid() && step == 2
      requires forall a :: a in acts ==> a in Activities
      modifies this
      ensures Valid()
      ensures answers == old(answers).(activities := acts)
      ensures step == old(step) && styleMode == old(styleMode)
    {
      answers := answers.(activities := acts);
    }

    /** Prompt 3: the one-word text box. */
    method EditOneWord(w: string)
      requires Valid() && step == 3
      modifies this
      ensures Valid()
      ensures answers == old(answers).(oneWord := w)
      ensures step == old(step) && styleMode == old(styleMode)
    {
      answers := answers.(oneWord := w);
    }

    /** Prompt 4: the memorable-moment text area. */
    method EditMoment(m: string)
      requires Valid() && step == 4
      modifies this
      ensures Valid()
      ensures answers == old(answers).(moment := m)
      ensures step == old(step) && styleMode == old(styleMode)
    {
      answers := answers.(moment := m);
    }

    /** Prompt 5: the what-it-meant text area. */
    method EditGrowth(g: string)
      requires Valid() && step == 5
      modifies this
      ensures Valid()
      ensures answers == old(answers).(growth := g)
      ensures step == old(step) && styleMode == old(styleMode)
    {
      answers := answers.(growth := g);
    }

    /** Prompt 6: the text area under the special question. */
    method EditSpecial(sp: string)
      requires Valid() && step == 6
      modifies this
      ensures Valid()
      ensures answers == old(answers).(special := sp)
      ensures step == old(step) && styleMode == old(styleMode)
    {
      answers := answers.(special := sp);
    }

    /** The "next" button of prompts 2 to 5: one prompt on, answers kept. */
    method Next()
      requires Valid() && 2 <= step <= 5
      modifies this
      ensures Valid()
      ensures step == old(step) + 1
      ensures answers == old(answers) && styleMode == old(styleMode)
    {
      step := step + 1;
    }

    /** The "save" button of prompt 6: one entry with the current style and
        answers is appended after the existing ones, then the form starts
        over with the default answers. `created` is the clock's reading. */
    method Save(created: Date)
      requires Valid() && step == 6 && ValidDate(created)
      modifies this, log
      ensures Valid()
      ensures log.lines == old(log.lines) + [Record(Entry(created, old(styleMode), old(answers)))]
      ensures log.Entries() == old(log.Entries()) + [Entry(created, old(styleMode), old(answers))]
      ensures old(answers).emoji.Some?
      ensures step == 1 && answers == DefaultAnswers && styleMode == old(styleMode)
    {
      log.Append(Entry(created, styleMode, answers));
      step := 1;
      answers := DefaultAnswers;
    }
  }

  /** Going through all six prompts once, from the first, appends exactly the
      entry made of the answers given and brings the form back to prompt 1. */
  method RecordDay(s: Session, created: Date, mood: nat, acts: seq<string>,
                   word: string, moment: string, growth: string, special: string)
    requires s.Valid() && s.step == 1 && mood < |EmojiOptions| && ValidDate(created)
    requires forall a :: a in acts ==> a in Activities
    modifies s, s.log
    ensures s.Valid() && s.step == 1 && s.answers == DefaultAnswers
    ensures s.styleMode == old(s.styleMode)
    ensures s.log.Entries() == old(s.log.Entries())
      + [Entry(created, old(s.styleMode), Answers(Some(EmojiOptions[mood].0), acts, word, moment, growth, special))]
  {
    s.PickEmoji(mood);
    s.EditActivities(acts);
    s.Next();
    s.EditOneWord(word);
    s.Next();
    s.EditMoment(moment);
    s.Next();
    s.EditGrowth(growth);
    s.Next();
    s.EditSpecial(special);
    s.Save(created);
  }
}
