/** A student: a fixed identifier and the answer most recently written, if any. */
module Students {
  import opened Wrappers

  datatype Student = Student(id: string, answer: Option<string>)

  /** A freshly created student has not answered yet. */
  function NewStudent(id: string): (s: Student)
    ensures s.id == id && s.answer.None?
  {
    Student(id, None)
  }

  /** Writing an answer replaces whatever was written before; the identifier never changes. */
  function SubmitAnswer(s: Student, answer: string): (r: Student)
    ensures r.id == s.id
    ensures r.answer == Some(answer)
  {
    s.(answer := Some(answer))
  }

  /** The stored answer, `None` standing for the null of a student who never answered. */
  function GetAnswer(s: Student): Option<string>
  {
    s.answer
  }

  /** Only the last write is kept: an earlier answer leaves no trace. */
  lemma LastAnswerWins(s: Student, first: string, second: string)
    ensures SubmitAnswer(SubmitAnswer(s, first), second) == SubmitAnswer(s, second)
    ensures GetAnswer(SubmitAnswer(SubmitAnswer(s, first), second)) == Some(second)
  {
  }
}
