/**
  The entities of the study tracker: the subject catalogue (subjects holding
  chapters holding tasks), the recorded study sessions and the reading list.
  Numbers of the original are JavaScript numbers; the ones that matter here
  only ever hold whole values, so they are modelled as `int`.
 */
module Types {

  datatype Option<+T> = None | Some(value: T)

  datatype Task = Task(id: int, name: string, completed: bool)

  datatype Chapter = Chapter(id: int, name: string, tasks: seq<Task>)

  datatype Subject = Subject(id: int, name: string, color: string, chapters: seq<Chapter>)

  /** One finished study phase. `subject` is the subject's name, not a
      reference: it survives the deletion of the subject it named. */
  datatype Session = Session(
    id: int,
    subject: string,
    duration: int,
    questions: int,
    correctQuestions: int,
    date: string,
    completed: bool)

  /** `completed` is an optional field in the original: `None` is "absent". */
  datatype Book = Book(
    id: string,
    title: string,
    authors: seq<string>,
    thumbnail: string,
    addedAt: string,
    completed: Option<bool>)

  datatype ColorMode = Vibrant | Monochrome

  datatype BackgroundMode = Default | Grid | Dots | Aurora | Solid | Stars | Ocean | Sunset

  /** A configured phase length: the text field is either empty or a number. */
  datatype Length = Blank | Minutes(n: int)

  /** `Number(len) || fallback`: the empty field and zero are falsy. */
  function LengthOr(len: Length, fallback: int): (r: int)
    ensures len.Blank? ==> r == fallback
    ensures len.Minutes? && len.n != 0 ==> r == len.n
    ensures len.Minutes? && len.n == 0 ==> r == fallback
  {
    match len
    case Blank => fallback
    case Minutes(n) => if n == 0 then fallback else n
  }

  /** What the length inputs can ever store: blank, or a whole number >= 1. */
  predicate ValidLength(len: Length) {
    len.Blank? || len.n >= 1
  }

  lemma ValidLengthOrPositive(len: Length, fallback: int)
    requires ValidLength(len) && fallback >= 1
    ensures LengthOr(len, fallback) >= 1
  {
  }
}
