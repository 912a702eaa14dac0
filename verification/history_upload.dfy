/**
 * DocHistory `handleSubmit`: like the Dashboard upload, but it runs the OCR
 * text through the extractor and records title and event date. The record
 * takes the title and event date the form held when the handler started;
 * the freshly extracted values only reach the form state.
 */
module HistoryUpload {
  import opened Optional
  import opened Store
  import opened Upload
  import Extract

  /** The DocHistory component's `title` and `eventDate` state. */
  datatype FormState = FormState(title: string, eventDate: string)

  datatype HistorySubmitted = HistorySubmitted(submitted: Submitted, form: FormState)

  /** `text` is the recognised text of the uploaded image. */
  function HistorySubmit(s: Store, form: FormState, file: Option<string>, uploadFails: bool,
                         uid: Uid, url: string, text: string, now: string, faults: Faults): (r: HistorySubmitted)
    ensures file.None? || uploadFails ==> r.submitted.store == s && r.form == form
    ensures r.submitted.blob == (if file.Some? then Some(BlobPath(file.value)) else None)
    ensures file.Some? && !uploadFails ==>
      && r.submitted.store == Commit(s, uid, url, HistoryRecord(now, form.title, form.eventDate), faults)
      && r.form.title == Extract.Heading(text)
      && r.form.eventDate == Extract.NextEventDate(form.eventDate, text)
  {
    match file
    case None => HistorySubmitted(Submitted(None, s), form)
    case Some(name) =>
      if uploadFails then HistorySubmitted(Submitted(Some(BlobPath(name)), s), form)
      else
        var store := Commit(s, uid, url, HistoryRecord(now, form.title, form.eventDate), faults);
        var form' := FormState(Extract.Heading(text), Extract.NextEventDate(form.eventDate, text));
        HistorySubmitted(Submitted(Some(BlobPath(name)), store), form')
  }

  /**
   * The record written holds the form's earlier title and event date, while
   * the form itself moves on to the values extracted from `text`; so the
   * first upload of a session records an empty title and event date.
   */
  lemma RecordTakesEarlierFormState(s: Store, form: FormState, name: string, uid: Uid,
                                    url: string, text: string, now: string)
    requires Target(s, uid).Some?
    ensures var r := HistorySubmit(s, form, Some(name), false, uid, url, text, now, NoFaults);
      var (org, c) := Target(s, uid).value;
      && r.submitted.store.orgs[org].images[c].title == Some(form.title)
      && r.submitted.store.orgs[org].images[c].eventDate == Some(form.eventDate)
      && r.form.title == Extract.Heading(text)
  {
  }
}
