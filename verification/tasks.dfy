/** The task record and its two-state status. */
module Tasks {

  datatype Status = Pending | Completed

  datatype Task = Task(description: string, status: Status, date: string)

  /** The fixed creation date stamped on every new task (`today_string`). */
  const Today: string := "2025-11-14"

  /** `TaskStatus::as_str`: the literal name written to the file and shown
      in listings. */
  function StatusName(s: Status): (r: string)
    ensures r == "Pending" || r == "Completed"
    ensures r == "Completed" <==> s == Completed
  {
    match s
    case Pending => "Pending"
    case Completed => "Completed"
  }

  /** `TaskStatus::from_str`: exactly "Completed" is Completed; any other
      text, including "Pending", falls back to Pending. */
  function ParseStatus(text: string): (r: Status)
    ensures r == Completed <==> text == "Completed"
  {
    if text == "Completed" then Completed else Pending
  }

  /** Writing a status and reading it back gives the same status, and the
      written name is the only text that reads back as that status among
      the two names. */
  lemma StatusRoundTrip(s: Status)
    ensures ParseStatus(StatusName(s)) == s
    ensures forall t: Status :: StatusName(t) == StatusName(s) ==> t == s
  {
  }

  /** Any text other than "Completed" reads as Pending. */
  lemma ParseStatusDefault(text: string)
    requires text != "Completed"
    ensures ParseStatus(text) == Pending
  {
  }
}
