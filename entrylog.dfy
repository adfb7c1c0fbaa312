/** The entries file as an append-only log of lines. `append_entry` writes
    one line per entry at the end; `read_entries` returns the entry of every
    line that is not blank, in file order. A missing file reads as empty. */
module EntryLog {
  import opened Calendar
  import opened Journal
  import opened Grouping

  /** A line of the file: an entry, or a line that is empty once stripped.
      A non-blank line that is not an entry's JSON would make `read_entries`
      raise; the files modelled here hold no such line. */
  datatype Line = Record(entry: Entry) | Blank

  /** The entries of the non-blank lines, in order. */
  function Records(lines: seq<Line>): (es: seq<Entry>)
    ensures |es| <= |lines|
    ensures (forall i :: 0 <= i < |lines| ==> lines[i].Record?) ==> |es| == |lines|
  {
    if lines == [] then []
    else
      var init := Records(lines[..|lines| - 1]);
      match lines[|lines| - 1]
      case Record(e) => init + [e]
      case Blank => init
  }

  /** Reading a file split in two reads the first part, then the second. */
  lemma {:induction false} RecordsAppend(a: seq<Line>, b: seq<Line>)
    ensures Records(a + b) == Records(a) + Records(b)
    decreases |b|
  {
    if b == [] {
      assert a + b == a;
    } else {
      var b' := b[..|b| - 1];
      RecordsAppend(a, b');
      assert (a + b)[..|a + b| - 1] == a + b';
    }
  }

  /** The lines `append_entry` writes, one per entry. */
  function Written(es: seq<Entry>): (lines: seq<Line>)
    ensures |lines| == |es|
    ensures forall i :: 0 <= i < |es| ==> lines[i] == Record(es[i])
  {
    seq(|es|, i requires 0 <= i < |es| => Record(es[i]))
  }

  /** Reading back only what `append_entry` wrote gives the entries written. */
  lemma {:induction false} RecordsOfWritten(es: seq<Entry>)
    ensures Records(Written(es)) == es
    decreases |es|
  {
    if es != [] {
      var es' := es[..|es| - 1];
      RecordsOfWritten(es');
      var w := Written(es);
      assert w[..|w| - 1] == Written(es');
      assert es == es' + [es[|es| - 1]];
    }
  }

  /** Whatever is appended after the existing lines reads back after the
      entries already there, in the order it was appended. */
  lemma WrittenReadsBack(lines: seq<Line>, es: seq<Entry>)
    ensures Records(lines + Written(es)) == Records(lines) + es
  {
    RecordsAppend(lines, Written(es));
    RecordsOfWritten(es);
  }

  /** The file `data/entries.jsonl`. */
  class Log {
    var lines: seq<Line>

    /** `Entries()` is what `read_entries` would return now. */
    function Entries(): seq<Entry>
      reads this
    {
      Records(lines)
    }

    /** Every entry read back carries a date `datetime` can hold, as every
        entry stamped by `datetime.now()` does. */
    ghost predicate Valid()
      reads this
    {
      ValidEntries(Entries())
    }

    /** A log whose file does not exist yet. */
    constructor ()
      ensures Valid()
      ensures lines == [] && Entries() == []
    {
      lines := [];
    }

    /** `append_entry(e)`. */
    method Append(e: Entry)
      requires Valid() && ValidDate(e.created)
      modifies this
      ensures Valid()
      ensures lines == old(lines) + [Record(e)]
      ensures Entries() == old(Entries()) + [e]
    {
      RecordsAppend(lines, [Record(e)]);
      lines := lines + [Record(e)];
    }

    /** `read_entries()`. */
    method ReadEntries() returns (es: seq<Entry>)
      ensures es == Records(lines)
      ensures Valid() ==> ValidEntries(es)
    {
      es := [];
      for i := 0 to |lines|
        invariant es == Records(lines[..i])
      {
        assert lines[..i + 1][..i] == lines[..i];
        if lines[i].Record? {
          es := es + [lines[i].entry];
        }
      }
      assert lines[..|lines|] == lines;
    }
  }
}
