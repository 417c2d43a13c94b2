/**
  The answer router: the state the upload leaves behind and the ordered
  decision chain that answers a question about it.

  The chain, first applicable step wins:
    1. no document loaded: ask for one;
    2. an image: one call to the model on the recognised text;
    3. a page, row, column or slide count held in the metadata;
    4. an attendance count over the text read as a table;
    5. the document search, then up to five calls to the model.
 */
module RagPipeline {
  import opened Wrappers
  import opened Text
  import VectorStore
  import Attendance
  import opened Generation

  // ---------------------------------------------------------------- state

  /** A metadata value as the loaders produce them. */
  datatype MetaValue = IntVal(i: int) | BoolVal(b: bool) | StrVal(s: string)

  /** Python's truth test on a metadata value. */
  predicate Truthy(v: MetaValue) {
    match v
    case IntVal(i) => i != 0
    case BoolVal(b) => b
    case StrVal(s) => s != ""
  }

  /** How a metadata value is printed inside an answer sentence. */
  function Show(v: MetaValue): string {
    match v
    case IntVal(i) => IntToString(i)
    case BoolVal(b) => if b then "True" else "False"
    case StrVal(s) => s
  }

  type Metadata = map<string, MetaValue>

  /** What a loader hands over: the text alone, or the text with its
      metadata. */
  datatype Document = Plain(text: string) | WithMeta(text: string, meta: Metadata)

  /** The module's globals: the text (`None` before any upload), the
      metadata, and the vector store built from the text. */
  datatype Session = Session(fullText: Option<string>, metadata: Metadata, store: VectorStore.Store)

  /** Nothing uploaded yet. */
  const Empty: Session := Session(None, map[], VectorStore.Store(false, []))

  /** Loading an uploaded document: its text, its metadata (none for plain
      text) and the vector store built from the text. */
  function BuildRagIndex(doc: Document): (s: Session)
    ensures s.fullText == Some(doc.text)
    ensures doc.WithMeta? ==> s.metadata == doc.meta
    ensures doc.Plain? ==> s.metadata == map[]
    ensures s.store.indexPresent <==> Words(doc.text) != []
    ensures s.store == VectorStore.CreateVectorStore(doc.text)
  {
    var meta := match doc
      case Plain(_) => map[]
      case WithMeta(_, m) => m;
    Session(Some(doc.text), meta, VectorStore.CreateVectorStore(doc.text))
  }

  // ---------------------------------------------------------------- metadata shortcuts

  /** One count shortcut: the noun the query must mention, the metadata key,
      and the sentence around the value. */
  datatype Shortcut = Shortcut(noun: string, plural: string, key: string, before: string, after: string)

  /** The shortcuts in the order they are tried. */
  const Shortcuts: seq<Shortcut> := [
    Shortcut("page", "pages", "page_count", "**The document has ", " pages.**"),
    Shortcut("row", "rows", "row_count", "**The spreadsheet has ", " data rows.**"),
    Shortcut("column", "columns", "column_count", "**The spreadsheet has ", " columns.**"),
    Shortcut("slide", "slides", "slide_count", "**The presentation has ", " slides.**")
  ]

  /** The words that make a query a counting question for a shortcut. */
  function CountWords(sc: Shortcut): seq<string> {
    ["how many", "number", "count", sc.plural]
  }

  /** The shortcut's condition: its noun and one of its count words occur
      in the query, and the metadata holds its key. */
  predicate Fires(sc: Shortcut, query: string, meta: Metadata) {
    Contains(query, sc.noun) && ContainsAny(query, CountWords(sc)) && sc.key in meta
  }

  function ShortcutAnswer(sc: Shortcut, meta: Metadata): string
    requires sc.key in meta
  {
    sc.before + Show(meta[sc.key]) + sc.after
  }

  /** The first shortcut of `scs` that fires, and its answer. */
  function FirstShortcut(scs: seq<Shortcut>, query: string, meta: Metadata): (r: Option<nat>)
    ensures r.Some? ==> r.value < |scs| && Fires(scs[r.value], query, meta)
    ensures r.Some? ==> forall k :: 0 <= k < r.value ==> !Fires(scs[k], query, meta)
    ensures r.None? <==> forall k :: 0 <= k < |scs| ==> !Fires(scs[k], query, meta)
  {
    if |scs| == 0 then None
    else if Fires(scs[0], query, meta) then Some(0)
    else
      match FirstShortcut(scs[1..], query, meta)
      case None => None
      case Some(k) => Some(k + 1)
  }

  /** Step 3 of the chain. */
  function MetadataAnswer(query: string, meta: Metadata): (r: Option<string>)
    ensures r.None? <==> forall k :: 0 <= k < |Shortcuts| ==> !Fires(Shortcuts[k], query, meta)
  {
    match FirstShortcut(Shortcuts, query, meta)
    case None => None
    case Some(k) => Some(ShortcutAnswer(Shortcuts[k], meta))
  }

  // ---------------------------------------------------------------- the chain

  const NoDocumentMessage: string := "Please upload a document first."
  const NotIndexedMessage: string := "Document not indexed yet. Please wait or re-upload."
  const NoContentMessage: string := "No relevant content found in the document."

  /** Which step of the chain produced the answer. */
  datatype Route = NoDocument | ImageAnalysis | MetadataCount | AttendanceSummary | NotIndexed | NoContent | Generated

  /** The answer, the step that gave it, and what was observed on the way:
      the chunks placed in the prompt, the number of model calls and the
      sleeps between them. */
  datatype Reply = Reply(text: string, route: Route, context: seq<string>, calls: nat, delays: seq<nat>)

  /** The document is an image when its metadata carries a true image flag. */
  predicate IsImage(meta: Metadata) {
    "is_image" in meta && Truthy(meta["is_image"])
  }

  /** The query as every test of the chain sees it: lower-cased, then
      stripped of surrounding whitespace. It holds no capital letter and
      neither starts nor ends with whitespace. */
  function Normalized(query: string): (r: string)
    ensures |r| <= |query|
    ensures forall k :: 0 <= k < |r| ==> !('A' <= r[k] <= 'Z')
    ensures Stripped(r)
    ensures r == "" <==> AllSpace(query)
  {
    StripKeepsCharacters(Lower(query));
    StripEmptyIffAllSpace(Lower(query));
    LowerKeepsSpace(query);
    Strip(Lower(query))
  }

  /** Lower-casing neither makes nor unmakes whitespace: the query is blank
      exactly when its lower-cased form is. */
  lemma LowerKeepsSpace(query: string)
    ensures AllSpace(Lower(query)) <==> AllSpace(query)
  {
    var l := Lower(query);
    assert forall k :: 0 <= k < |query| ==> (IsSpace(l[k]) <==> IsSpace(query[k]));
  }

  /** `r` is the lower-cased form of the stretch of `query` that starts at
      `d`, with only whitespace before and after that stretch. */
  predicate LoweredStretch(query: string, d: nat, r: string) {
    && d + |r| <= |query|
    && r == Lower(query[d..d + |r|])
    && AllSpace(query[..d]) && AllSpace(query[d + |r|..])
  }

  /** The normalised query is the lower-cased form of the query without its
      surrounding whitespace. */
  lemma NormalizedIsSlice(query: string) returns (d: nat)
    ensures LoweredStretch(query, d, Normalized(query))
  {
    d := StripIsSlice(Lower(query));
    LoweredStretchOf(query, d, Strip(Lower(query)));
  }

  /** A stretch of the lower-cased query with only whitespace around it is
      the lower-cased form of the same stretch of the query. */
  lemma LoweredStretchOf(query: string, d: nat, r: string)
    requires Framed(Lower(query), d, r)
    ensures LoweredStretch(query, d, r)
  {
    var e := d + |r|;
    LowerSlice(query, d, e);
    LowerPrefix(query, d);
    LowerSuffix(query, e);
    LowerKeepsSpace(query[..d]);
    LowerKeepsSpace(query[e..]);
  }

  /** Lower-casing commutes with taking a stretch. */
  lemma LowerSlice(query: string, i: nat, j: nat)
    requires i <= j <= |query|
    ensures Lower(query)[i..j] == Lower(query[i..j])
  {
  }

  lemma LowerPrefix(query: string, i: nat)
    requires i <= |query|
    ensures Lower(query)[..i] == Lower(query[..i])
  {
  }

  lemma LowerSuffix(query: string, i: nat)
    requires i <= |query|
    ensures Lower(query)[i..] == Lower(query[i..])
  {
  }

  /** Normalising twice changes nothing more. */
  lemma NormalizedIdempotent(query: string)
    ensures Normalized(Normalized(query)) == Normalized(query)
  {
    var r := Normalized(query);
    LowerKeepsSmall(r);
    StrippedIsFixedPoint(r);
  }

  /** The answer to a question, given the labels the vector index returns
      for the query and what each model call would return. */
  function GetAnswer(s: Session, query: string, labels: seq<VectorStore.Label>, oracle: nat -> Outcome): (r: Reply)
    ensures s.fullText.None? <==> r.route == NoDocument
    ensures r.route == NoDocument ==> r.text == NoDocumentMessage
    ensures r.route == NoContent ==> r.text == NoContentMessage
    ensures r.route == NotIndexed ==> r.text == NotIndexedMessage
    ensures r.route !in {ImageAnalysis, Generated} ==> r.calls == 0 && r.delays == []
    ensures r.route != Generated ==> r.context == []
    ensures r.calls > 0 <==> r.route in {ImageAnalysis, Generated}
    ensures r.calls <= MaxAttempts
    ensures forall j :: 0 <= j < |r.context| ==> VectorStore.NamedByHit(s.store.chunks, labels, r.context[j])
    ensures r.route in {NoContent, Generated} ==> s.store.indexPresent
    ensures r.route == ImageAnalysis ==> r.text == ImageAnswer(oracle(0))
    ensures r.route == MetadataCount ==> MetadataAnswer(Normalized(query), s.metadata) == Some(r.text)
    ensures r.route == AttendanceSummary ==> s.fullText.Some? && Attendance.AttendanceAnswer(s.fullText.value, Normalized(query)) == Some(r.text)
    ensures r.route == Generated ==> && r.context == VectorStore.RetrieveChunks(s.store.indexPresent, s.store.chunks, labels)
                                     && r.text == Retry(oracle).reply && r.calls == Retry(oracle).calls && r.delays == Retry(oracle).delays
  {
    if s.fullText.None? then Reply(NoDocumentMessage, NoDocument, [], 0, [])
    else
      var q := Normalized(query);
      if IsImage(s.metadata) then Reply(ImageAnswer(oracle(0)), ImageAnalysis, [], 1, [])
      else
        match MetadataAnswer(q, s.metadata)
        case Some(a) => Reply(a, MetadataCount, [], 0, [])
        case None =>
          match Attendance.AttendanceAnswer(s.fullText.value, q)
          case Some(a) => Reply(a, AttendanceSummary, [], 0, [])
          case None => Search(s.store, labels, oracle)
  }

  /** Step 5: the guards of the document search, then the model. */
  function Search(store: VectorStore.Store, labels: seq<VectorStore.Label>, oracle: nat -> Outcome): (r: Reply)
    ensures r.route in {NotIndexed, NoContent, Generated}
    ensures r.route == NotIndexed <==> !store.indexPresent
    ensures r.route == NotIndexed ==> r.text == NotIndexedMessage
    ensures r.route == NoContent ==> r.text == NoContentMessage
    ensures r.route != Generated ==> r.calls == 0 && r.delays == [] && r.context == []
    ensures r.route == Generated ==> 1 <= r.calls <= MaxAttempts && r.context != []
    ensures forall j :: 0 <= j < |r.context| ==> VectorStore.NamedByHit(store.chunks, labels, r.context[j])
    ensures r.route == NoContent <==> store.indexPresent && VectorStore.RetrieveChunks(store.indexPresent, store.chunks, labels) == []
    ensures r.route == Generated ==> && r.context == VectorStore.RetrieveChunks(store.indexPresent, store.chunks, labels)
                                     && r.text == Retry(oracle).reply && r.calls == Retry(oracle).calls && r.delays == Retry(oracle).delays
  {
    if !store.indexPresent then Reply(NotIndexedMessage, NotIndexed, [], 0, [])
    else
      var retrieved := VectorStore.RetrieveChunks(store.indexPresent, store.chunks, labels);
      if retrieved == [] then Reply(NoContentMessage, NoContent, [], 0, [])
      else
        var g := Retry(oracle);
        Reply(g.reply, Generated, retrieved, g.calls, g.delays)
  }

  // ---------------------------------------------------------------- properties of the chain

  /** Before any upload every question gets the request for a document, and
      the model is not consulted. */
  lemma NothingUploaded(query: string, labels: seq<VectorStore.Label>, oracle: nat -> Outcome)
    ensures GetAnswer(Empty, query, labels, oracle).text == NoDocumentMessage
    ensures GetAnswer(Empty, query, labels, oracle).calls == 0
  {
  }

  /** After an upload the guard never fires again. */
  lemma UploadedDocumentIsLoaded(doc: Document, query: string, labels: seq<VectorStore.Label>, oracle: nat -> Outcome)
    ensures GetAnswer(BuildRagIndex(doc), query, labels, oracle).route != NoDocument
  {
  }

  /** For an image only the image step runs: given the same reply of the
      model, the answer depends neither on the question nor on the search
      labels, and no shortcut, count or search is tried. The model's reply
      is a parameter here; the prompt that carries the question and the
      recognised text to the model is not part of this model. */
  lemma ImageOverridesEverything(s: Session, q1: string, q2: string, l1: seq<VectorStore.Label>, l2: seq<VectorStore.Label>, oracle: nat -> Outcome)
    requires s.fullText.Some? && IsImage(s.metadata)
    ensures GetAnswer(s, q1, l1, oracle) == GetAnswer(s, q2, l2, oracle)
    ensures GetAnswer(s, q1, l1, oracle).route == ImageAnalysis
    ensures GetAnswer(s, q1, l1, oracle).text == ImageAnswer(oracle(0))
  {
  }

  /** Shortcut `k` answers when it fires and no earlier one does; with the
      characterisation of `MetadataAnswer` being `None`, this pins the
      order page, row, column, slide and the fall-through on a missing key. */
  lemma ShortcutPrecedence(query: string, meta: Metadata, k: nat)
    requires k < |Shortcuts| && Fires(Shortcuts[k], query, meta)
    requires forall j :: 0 <= j < k ==> !Fires(Shortcuts[j], query, meta)
    ensures MetadataAnswer(query, meta) == Some(ShortcutAnswer(Shortcuts[k], meta))
  {
    var r := FirstShortcut(Shortcuts, query, meta);
    assert r.Some?;
  }

  /** A page-count question on a document that records its page count is
      answered from the page count, whatever else the question mentions. */
  lemma PageCountAnswered(query: string, meta: Metadata)
    requires "page_count" in meta
    requires Contains(query, "page") && ContainsAny(query, ["how many", "number", "count", "pages"])
    ensures MetadataAnswer(query, meta) == Some("**The document has " + Show(meta["page_count"]) + " pages.**")
  {
    assert CountWords(Shortcuts[0]) == ["how many", "number", "count", "pages"];
    ShortcutPrecedence(query, meta, 0);
  }

  /** A shortcut's answer is the reply for a loaded document that is not an
      image; the attendance counter and the search are not consulted. */
  lemma MetadataRoute(s: Session, query: string, labels: seq<VectorStore.Label>, oracle: nat -> Outcome)
    requires s.fullText.Some? && !IsImage(s.metadata)
    ensures var m := MetadataAnswer(Normalized(query), s.metadata);
            m.Some? ==> GetAnswer(s, query, labels, oracle).route == MetadataCount && GetAnswer(s, query, labels, oracle).text == m.value
  {
  }

  /** The attendance counter answers exactly when no earlier step does and
      the counter finds an asked category in the table. */
  lemma AttendanceRoute(s: Session, query: string, labels: seq<VectorStore.Label>, oracle: nat -> Outcome)
    ensures GetAnswer(s, query, labels, oracle).route == AttendanceSummary <==>
              && s.fullText.Some? && !IsImage(s.metadata)
              && MetadataAnswer(Normalized(query), s.metadata).None?
              && Attendance.AttendanceAnswer(s.fullText.value, Normalized(query)).Some?
    ensures GetAnswer(s, query, labels, oracle).route == AttendanceSummary ==>
              Attendance.AttendanceAnswer(s.fullText.value, Normalized(query)) == Some(GetAnswer(s, query, labels, oracle).text)
  {
  }

  /** The model answers exactly when no earlier step does and the search
      finds something. Its prompt carries every retrieved chunk, and the
      answer is the reply of the first successful call among five, or the
      apology after five failed calls and sleeps of 1, 2, 4 and 8 seconds. */
  lemma GeneratedRoute(s: Session, query: string, labels: seq<VectorStore.Label>, oracle: nat -> Outcome)
    ensures var r := GetAnswer(s, query, labels, oracle);
            r.route == Generated <==>
              && s.fullText.Some? && !IsImage(s.metadata)
              && MetadataAnswer(Normalized(query), s.metadata).None?
              && Attendance.AttendanceAnswer(s.fullText.value, Normalized(query)).None?
              && VectorStore.RetrieveChunks(s.store.indexPresent, s.store.chunks, labels) != []
    ensures var r := GetAnswer(s, query, labels, oracle);
            r.route == Generated ==>
              && r.context == VectorStore.RetrieveChunks(s.store.indexPresent, s.store.chunks, labels)
              && match FirstOk(oracle, MaxAttempts)
                 case Some(i) => r.calls == i + 1 && r.text == AnswerOr(oracle(i).content, NoClearAnswer)
                 case None => r.calls == MaxAttempts && r.text == TemporaryIssue && r.delays == Backoffs
  {
    RetryAnswersFirstSuccess(oracle);
  }

  /** A document without a single word gets no index, so a question that no
      earlier step answers is refused as not indexed; the search and the
      model are never reached. */
  lemma BlankDocumentNotSearched(doc: Document, query: string, labels: seq<VectorStore.Label>, oracle: nat -> Outcome)
    requires AllSpace(doc.text)
    ensures GetAnswer(BuildRagIndex(doc), query, labels, oracle).route in {ImageAnalysis, MetadataCount, AttendanceSummary, NotIndexed}
    ensures GetAnswer(BuildRagIndex(doc), query, labels, oracle).route == NotIndexed ==>
              GetAnswer(BuildRagIndex(doc), query, labels, oracle).text == NotIndexedMessage
  {
    WordsEmptyIffAllSpace(doc.text);
    var s := BuildRagIndex(doc);
    assert !s.store.indexPresent;
  }

  /** On the search path, no chunk retrieved means no model call. */
  lemma EmptyRetrievalNoCall(store: VectorStore.Store, labels: seq<VectorStore.Label>, oracle: nat -> Outcome)
    requires store.indexPresent
    requires VectorStore.RetrieveChunks(store.indexPresent, store.chunks, labels) == []
    ensures Search(store, labels, oracle) == Reply(NoContentMessage, NoContent, [], 0, [])
  {
  }
}
