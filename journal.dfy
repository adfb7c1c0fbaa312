/** The records the journaling form stores: one entry per saved day, holding
    when it was written, the conversation style chosen, and the answers to
    the six prompts. */
module Journal {
  import opened Calendar

  datatype Option<T> = None | Some(value: T)

  /** The conversation styles offered; the first is the initial choice. */
  const StyleModes: seq<string> := ["친한친구", "반려동물", "차분한 비서", "인생의 멘토", "감성 에디터"]

  /** The twenty mood buttons of the first prompt: an emoji and its label. */
  const EmojiOptions: seq<(string, string)> := [
    ("😀", "기쁨"), ("🙂", "평온"), ("😐", "무덤덤"), ("😔", "우울"), ("😢", "슬픔"),
    ("😭", "벅참"), ("😡", "분노"), ("😤", "답답"), ("😴", "피곤"), ("😬", "불안"),
    ("☀️", "맑음"), ("🌙", "감성"), ("🌧️", "침잠"), ("🌿", "안정"), ("🔥", "열정"),
    ("⚡", "긴장"), ("🧊", "냉정"), ("🌊", "출렁임"), ("🫧", "가벼움"), ("🌸", "따뜻함")
  ]

  /** The activities the second prompt lets the writer pick from. */
  const Activities: seq<string> := ["공부", "업무", "운동", "휴식", "약속", "창작", "정리", "이동", "소비", "회복"]

  /** The `answers` record of the session; `emoji` is `None` until the
      first prompt is answered. */
  datatype Answers = Answers(
    emoji: Option<string>,
    activities: seq<string>,
    oneWord: string,
    moment: string,
    growth: string,
    special: string)

  /** The record a new session starts with and every save resets to. */
  const DefaultAnswers: Answers := Answers(None, [], "", "", "", "")

  /** One line of the entries log. Only the date of `created` matters here. */
  datatype Entry = Entry(created: Date, styleMode: string, answers: Answers)
}
