/**
 * The client's document list: the records it holds, the pure list
 * transforms that fetch, upload, replace and edit-save apply to it, and the
 * component state those handlers update, as a class.
 *
 * Requests to the server are outside the model: a handler receives the
 * server's reply as a parameter (`None` when the request failed, in which
 * case the source only logs and leaves the state alone).
 */
module Documents {
  import opened Wrappers
  import opened DateText
  import opened Status

  /** The server's marker for a document without an expiration date. */
  const NOT_PRESENT: string := "NOT PRESENT"

  /** One row of the `documents` state. */
  datatype Document = Document(
    id: string,
    name: string,
    originalFilename: string,
    expirationDate: string,
    status: string)

  /** One entry of the server's document listing. */
  datatype ServerDocument = ServerDocument(
    id: string,
    name: string,
    originalFilename: string,
    expirationDate: string)

  /** The body of the server's reply to an upload. */
  datatype UploadReply = UploadReply(id: string, name: string, expirationDate: string)

  /** The document whose edit dialog is open (`selectedDocument`). */
  datatype Selection = Selection(id: string, name: string, expirationDate: string)

  /** Every row's status is the one its stored date has at `now`. */
  predicate StatusesCurrent(docs: seq<Document>, now: int, dateOf: DateReader)
  {
    forall i :: 0 <= i < |docs| ==>
      docs[i].status == DetermineDocumentStatusAsWritten(docs[i].expirationDate, now, dateOf)
  }

  /** Neither the sentinel nor the empty string parses as a date. */
  lemma NoExpirationIsInvalid(now: int, dateOf: DateReader)
    ensures DetermineDocumentStatusAsWritten(NOT_PRESENT, now, dateOf) == INVALID_DATE
    ensures DetermineDocumentStatusAsWritten("", now, dateOf) == INVALID_DATE
  {
    SplitSeparatorFree(NOT_PRESENT);
  }

  /**
   * One listed document as fetchDocuments stores it: the status is computed
   * from the raw date, then the sentinel is blanked. Both the sentinel and
   * the empty string classify as 'Invalid Date', so the stored status is
   * still the one the stored date has.
   */
  function Fetched(raw: ServerDocument, now: int, dateOf: DateReader): (doc: Document)
    ensures doc.id == raw.id && doc.name == raw.name && doc.originalFilename == raw.originalFilename
    ensures doc.status == DetermineDocumentStatusAsWritten(doc.expirationDate, now, dateOf)
  {
    NoExpirationIsInvalid(now, dateOf);
    Document(
      raw.id,
      raw.name,
      raw.originalFilename,
      if raw.expirationDate == NOT_PRESENT then "" else raw.expirationDate,
      DetermineDocumentStatusAsWritten(raw.expirationDate, now, dateOf))
  }

  /**
   * Fetching blanks exactly the sentinel, keeps every other date, and gives
   * the sentinel the status 'Invalid Date'.
   */
  lemma FetchedDate(raw: ServerDocument, now: int, dateOf: DateReader)
    ensures var doc := Fetched(raw, now, dateOf);
      && (doc.expirationDate == "" <==> raw.expirationDate == NOT_PRESENT || raw.expirationDate == "")
      && (raw.expirationDate != NOT_PRESENT ==> doc.expirationDate == raw.expirationDate)
      && (raw.expirationDate == NOT_PRESENT ==> doc.status == INVALID_DATE)
  {
    NoExpirationIsInvalid(now, dateOf);
  }

  /** The listing mapped entry by entry through `Fetched`. */
  function FetchedAll(raws: seq<ServerDocument>, now: int, dateOf: DateReader): (docs: seq<Document>)
    ensures |docs| == |raws|
    ensures forall i :: 0 <= i < |docs| ==> docs[i] == Fetched(raws[i], now, dateOf)
    ensures StatusesCurrent(docs, now, dateOf)
  {
    if raws == [] then []
    else [Fetched(raws[0], now, dateOf)] + FetchedAll(raws[1..], now, dateOf)
  }

  /** The row handleDocumentUpload appends for an uploaded file. */
  function Uploaded(reply: UploadReply, filename: string, now: int, dateOf: DateReader): (doc: Document)
    ensures doc.id == reply.id && doc.name == reply.name && doc.expirationDate == reply.expirationDate
    ensures doc.originalFilename == filename
    ensures doc.status == DetermineDocumentStatusAsWritten(doc.expirationDate, now, dateOf)
    ensures ParseDate(doc.expirationDate).None? <==> doc.status == INVALID_DATE
  {
    Document(reply.id, reply.name, filename, reply.expirationDate,
      DetermineDocumentStatusAsWritten(reply.expirationDate, now, dateOf))
  }

  /** Appending an uploaded row adds one row at the end and keeps the rest. */
  lemma UploadAppends(docs: seq<Document>, reply: UploadReply, filename: string, now: int, dateOf: DateReader)
    ensures var r := docs + [Uploaded(reply, filename, now, dateOf)];
      && |r| == |docs| + 1
      && r[..|docs|] == docs
      && r[|docs|].id == reply.id && r[|docs|].originalFilename == filename
      && r[|docs|].name == reply.name && r[|docs|].expirationDate == reply.expirationDate
      && r[|docs|].status == DetermineDocumentStatusAsWritten(reply.expirationDate, now, dateOf)
      && (StatusesCurrent(docs, now, dateOf) ==> StatusesCurrent(r, now, dateOf))
  {
  }

  /** `docs.map(doc => doc._id === id ? change(doc) : doc)`. */
  function UpdateWhere(docs: seq<Document>, id: string, change: Document -> Document): (r: seq<Document>)
    ensures |r| == |docs|
    ensures forall i :: 0 <= i < |r| ==>
      r[i] == if docs[i].id == id then change(docs[i]) else docs[i]
  {
    if docs == [] then []
    else [if docs[0].id == id then change(docs[0]) else docs[0]] + UpdateWhere(docs[1..], id, change)
  }

  /**
   * handleReplaceDocument's list update: the rows with the replaced id take
   * the reply's name and date, the new file's name and the status of the
   * new date, and keep their id; every other row is unchanged.
   */
  function ReplaceDocument(
    docs: seq<Document>, id: string, reply: UploadReply, filename: string, now: int, dateOf: DateReader)
    : (r: seq<Document>)
    ensures |r| == |docs|
    ensures forall i :: 0 <= i < |r| ==> r[i].id == docs[i].id
    ensures forall i :: 0 <= i < |r| && docs[i].id != id ==> r[i] == docs[i]
    ensures forall i :: 0 <= i < |r| && docs[i].id == id ==>
      && r[i].name == reply.name
      && r[i].originalFilename == filename
      && r[i].expirationDate == reply.expirationDate
      && r[i].status == DetermineDocumentStatusAsWritten(reply.expirationDate, now, dateOf)
    ensures StatusesCurrent(docs, now, dateOf) ==> StatusesCurrent(r, now, dateOf)
  {
    var status := DetermineDocumentStatusAsWritten(reply.expirationDate, now, dateOf);
    UpdateWhere(docs, id, (doc: Document) => Document(doc.id, reply.name, filename, reply.expirationDate, status))
  }

  /**
   * handleSaveChanges' list update: the rows with the edited id take the new
   * name, the new date and its status, and keep their id and file name;
   * every other row is unchanged.
   */
  function SaveEdit(
    docs: seq<Document>, id: string, name: string, date: string, now: int, dateOf: DateReader)
    : (r: seq<Document>)
    ensures |r| == |docs|
    ensures forall i :: 0 <= i < |r| ==>
      r[i].id == docs[i].id && r[i].originalFilename == docs[i].originalFilename
    ensures forall i :: 0 <= i < |r| && docs[i].id != id ==> r[i] == docs[i]
    ensures forall i :: 0 <= i < |r| && docs[i].id == id ==>
      && r[i].name == name
      && r[i].expirationDate == date
      && r[i].status == DetermineDocumentStatusAsWritten(date, now, dateOf)
    ensures StatusesCurrent(docs, now, dateOf) ==> StatusesCurrent(r, now, dateOf)
  {
    var status := DetermineDocumentStatusAsWritten(date, now, dateOf);
    UpdateWhere(docs, id, (doc: Document) => doc.(name := name, expirationDate := date, status := status))
  }

  /**
   * A date picked as `YYYY-MM-DD` is saved as `DD-MM-YYYY`, and the status
   * of the saved row is read off the `Date` of the picked text itself.
   */
  lemma SavedDateKeepsPickedDay(
    docs: seq<Document>, id: string, name: string, picked: DateTokens, now: int, dateOf: DateReader)
    requires WellFormed(picked)
    ensures var r := SaveEdit(docs, id, name, Swap(DateInput(picked)), now, dateOf);
      forall i :: 0 <= i < |r| && docs[i].id == id ==>
        && r[i].expirationDate == Written(picked)
        && ParseDate(r[i].expirationDate) == Some(picked)
        && r[i].status == (match dateOf(DateInput(picked))
                           case InvalidTime => UP_TO_DATE
                           case Time(ms) => ClassifyDays(DaysUntil(ms, now)))
  {
    SwapWrittenDate(picked);
  }

  /** The component state the document handlers read and write. */
  class DocumentManager {
    var documents: seq<Document>
    var selectedDocument: Option<Selection>
    var newExpirationDate: string
    var newDocumentName: string

    /** The initial `useState` values. */
    constructor ()
      ensures documents == [] && selectedDocument == None
      ensures newExpirationDate == "" && newDocumentName == ""
    {
      documents := [];
      selectedDocument := None;
      newExpirationDate := "";
      newDocumentName := "";
    }

    /** fetchDocuments: on a reply, the list becomes the listing with statuses. */
    method FetchDocuments(listing: Option<seq<ServerDocument>>, now: int, dateOf: DateReader)
      modifies this`documents
      ensures listing.Some? ==> documents == FetchedAll(listing.value, now, dateOf)
      ensures listing.None? ==> documents == old(documents)
      ensures listing.Some? || StatusesCurrent(old(documents), now, dateOf) ==>
        StatusesCurrent(documents, now, dateOf)
    {
      if listing.Some? {
        documents := FetchedAll(listing.value, now, dateOf);
      }
    }

    /**
     * handleDocumentUpload: when a file was chosen and the upload succeeded,
     * its row is appended.
     */
    method HandleDocumentUpload(file: Option<string>, reply: Option<UploadReply>, now: int, dateOf: DateReader)
      modifies this`documents
      ensures file.Some? && reply.Some? ==>
        documents == old(documents) + [Uploaded(reply.value, file.value, now, dateOf)]
      ensures file.None? || reply.None? ==> documents == old(documents)
      ensures StatusesCurrent(old(documents), now, dateOf) ==> StatusesCurrent(documents, now, dateOf)
    {
      if file.Some? && reply.Some? {
        UploadAppends(documents, reply.value, file.value, now, dateOf);
        documents := documents + [Uploaded(reply.value, file.value, now, dateOf)];
      }
    }

    /**
     * handleReplaceDocument: when a file was chosen and the upload succeeded,
     * the rows with `target`'s id are replaced.
     */
    method HandleReplaceDocument(
      target: Document, file: Option<string>, reply: Option<UploadReply>, now: int, dateOf: DateReader)
      modifies this`documents
      ensures file.Some? && reply.Some? ==>
        documents == ReplaceDocument(old(documents), target.id, reply.value, file.value, now, dateOf)
      ensures file.None? || reply.None? ==> documents == old(documents)
      ensures StatusesCurrent(old(documents), now, dateOf) ==> StatusesCurrent(documents, now, dateOf)
    {
      if file.Some? && reply.Some? {
        documents := ReplaceDocument(documents, target.id, reply.value, file.value, now, dateOf);
      }
    }

    /**
     * handleEditDocument: opens the dialog on `doc`. `isoDay` stands for
     * `new Date(text).toISOString().substring(0, 10)`.
     */
    method HandleEditDocument(doc: Selection, isoDay: string -> string)
      modifies this`selectedDocument, this`newDocumentName, this`newExpirationDate
      ensures selectedDocument == Some(doc) && newDocumentName == doc.name
      ensures ParseDate(doc.expirationDate).None? ==> newExpirationDate == ""
      ensures ParseDate(doc.expirationDate).Some? ==>
        newExpirationDate == isoDay(DateInput(ParseDate(doc.expirationDate).value))
    {
      selectedDocument := Some(doc);
      newDocumentName := doc.name;
      match ParseDate(doc.expirationDate)
      case None =>
        newExpirationDate := "";
      case Some(t) =>
        newExpirationDate := isoDay(DateInput(t));
    }

    /**
     * handleSaveChanges: with a document selected and the update accepted by
     * the server, the edited rows take the new name and the swapped date, and
     * the dialog state is cleared. Otherwise nothing changes.
     */
    method HandleSaveChanges(accepted: bool, now: int, dateOf: DateReader)
      modifies this`documents, this`selectedDocument, this`newDocumentName, this`newExpirationDate
      ensures old(selectedDocument).Some? && accepted ==>
        && documents == SaveEdit(old(documents), old(selectedDocument).value.id,
                                 old(newDocumentName), Swap(old(newExpirationDate)), now, dateOf)
        && selectedDocument == None && newExpirationDate == "" && newDocumentName == ""
      ensures old(selectedDocument).None? || !accepted ==>
        && documents == old(documents) && selectedDocument == old(selectedDocument)
        && newExpirationDate == old(newExpirationDate) && newDocumentName == old(newDocumentName)
      ensures StatusesCurrent(old(documents), now, dateOf) ==> StatusesCurrent(documents, now, dateOf)
    {
      if selectedDocument.Some? && accepted {
        var formattedDate := Swap(newExpirationDate);
        documents := SaveEdit(documents, selectedDocument.value.id, newDocumentName, formattedDate, now, dateOf);
        selectedDocument := None;
        newExpirationDate := "";
        newDocumentName := "";
      }
    }
  }
}
