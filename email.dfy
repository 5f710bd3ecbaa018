/** The record the template is executed against, and the steps of `main`
    that build it: parse the message, extract its plain-text part, copy three
    header fields. Every error on the way ends the program. */
module EmailRecord {
  import opened Mail
  import opened PartExtractor

  /** Email: the template's view of one message. */
  datatype Email = Email(subject: string, date: string, from: string, to: string, text: seq<byte>)

  /** The prefix `main` passes to getPart. */
  const PlainText: string := "text/plain"

  /** From the parsed message (or the parse error) to the Email record, or
      to the error that makes the program exit. */
  method Run(parsed: Result<Message>) returns (r: Result<Email>)
    ensures parsed.Err? ==> r == Err(parsed.error)
    ensures parsed.Ok? ==>
      var out := GetPartSpec(parsed.value, PlainText);
      (out.Fatal? ==> r == Err(out.error)) &&
      (out.Returned? && out.err.Some? ==> r == Err(out.err.value)) &&
      (out.Returned? && out.err.None? ==> r.Ok?)
    ensures r.Ok? ==>
      parsed.Ok? &&
      GetPartSpec(parsed.value, PlainText) == Returned(r.value.text, None) &&
      r.value.subject == Get(parsed.value.header, "Subject") &&
      r.value.date == Get(parsed.value.header, "Date") &&
      r.value.from == Get(parsed.value.header, "From") &&
      r.value.to == ""
  {
    if parsed.Err? {
      return Err(parsed.error);
    }
    var m := parsed.value;
    var h := m.header;
    var part := GetPart(m, PlainText);
    match part
    case Fatal(e) =>
      return Err(e);
    case Returned(text, err) =>
      if err.Some? {
        return Err(err.value);
      }
      var email := Email(
        subject := Get(h, "Subject"),
        date := Get(h, "Date"),
        from := Get(h, "From"),
        to := "",
        text := text);
      return Ok(email);
  }
}
