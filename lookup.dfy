/** The backend's `POST /data/:option` handler: a decision table over the
    requested mode, the optional `date` body field and the snapshot document. */
module Lookup {

  import opened Wrappers

  /** One day's statistics as the snapshot stores them. */
  datatype Stats = Stats(
    numberInfected: int,
    numberCured: int,
    numberDeceased: int,
    numberTotalDosesAdministered: int,
    incidence: Option<map<string, real>>)

  /** A value as the snapshot's JSON may hold it under a date key. Only the
      distinctions JavaScript's truthiness test draws matter here. */
  datatype Json =
    | Null
    | Bool(b: bool)
    | Number(n: real)
    | Text(s: string)
    | Record(stats: Stats)

  /** JavaScript truthiness: `null`, `false`, `0` and `""` are falsy. */
  predicate Truthy(v: Json) {
    match v
    case Null => false
    case Bool(b) => b
    case Number(n) => n != 0.0
    case Text(s) => s != ""
    case Record(_) => true
  }

  /** The parsed snapshot document. */
  datatype Snapshot = Snapshot(currentDayStats: Json, historicalData: map<string, Json>)

  /** What one request produces: the chosen slice or one of the error kinds. */
  datatype Response =
    | Found(body: Json)
    | DayNotFound
    | MissingDayParam
    | InvalidOption
    | StoreUnavailable

  const CurrentDay: string := "currentDay"
  const PerDay: string := "perDay"

  /** The `if (date)` test: an absent, `null` or empty date counts as missing. */
  predicate DateGiven(date: Option<string>) {
    date.Some? && date.value != ""
  }

  /** The `if (file.historicalData[date])` test: the key is present and its value truthy. */
  predicate HasDay(doc: Snapshot, key: string) {
    key in doc.historicalData && Truthy(doc.historicalData[key])
  }

  /** The switch of the handler, given a document that was read successfully. */
  function Resolve(option: string, date: Option<string>, doc: Snapshot): (r: Response)
    ensures !r.StoreUnavailable?
    ensures r.InvalidOption? <==> option != CurrentDay && option != PerDay
    ensures r.MissingDayParam? <==> option == PerDay && !DateGiven(date)
    ensures r.DayNotFound? <==> option == PerDay && DateGiven(date) && !HasDay(doc, date.value)
    ensures r.Found? <==> option == CurrentDay || (option == PerDay && DateGiven(date) && HasDay(doc, date.value))
    ensures r.Found? && option == CurrentDay ==> r.body == doc.currentDayStats
    ensures r.Found? && option == PerDay ==> r.body == doc.historicalData[date.value] && Truthy(r.body)
  {
    if option == CurrentDay then
      Found(doc.currentDayStats)
    else if option == PerDay then
      if date.Some? && date.value != "" then
        if date.value in doc.historicalData && Truthy(doc.historicalData[date.value]) then
          Found(doc.historicalData[date.value])
        else
          DayNotFound
      else
        MissingDayParam
    else
      InvalidOption
  }

  /** The whole handler: the document is read before the switch, so a read or
      parse failure (`store == None`) ends every request, whatever the option. */
  function Handle(option: string, date: Option<string>, store: Option<Snapshot>): (r: Response)
    ensures store.None? <==> r.StoreUnavailable?
    ensures store.Some? ==> r == Resolve(option, date, store.value)
  {
    match store
    case None => StoreUnavailable
    case Some(doc) => Resolve(option, date, doc)
  }

  /** What goes over the wire: a JSON body, or an `{ error: message }` object. */
  datatype Payload = Data(json: Json) | Error(message: string)
  datatype Reply = Reply(status: nat, payload: Payload)

  /** How `res.json` and `res.status(400).json({ error })` emit a response;
      an exception escaping the handler becomes Express's status 500. */
  function Emit(r: Response): (reply: Reply)
    ensures reply.status == 200 <==> r.Found?
    ensures reply.status == 500 <==> r.StoreUnavailable?
    ensures reply.status == 400 <==> r.DayNotFound? || r.MissingDayParam? || r.InvalidOption?
    ensures r.Found? ==> reply.payload == Data(r.body)
    ensures r.DayNotFound? ==> reply.payload == Error("Day not found")
    ensures r.MissingDayParam? ==> reply.payload == Error("Missing day body param")
    ensures r.InvalidOption? ==> reply.payload == Error("Invalid option")
  {
    match r
    case Found(body) => Reply(200, Data(body))
    case DayNotFound => Reply(400, Error("Day not found"))
    case MissingDayParam => Reply(400, Error("Missing day body param"))
    case InvalidOption => Reply(400, Error("Invalid option"))
    case StoreUnavailable => Reply(500, Error("Internal Server Error"))
  }

  /** Distinct outcomes are told apart by what the caller receives. */
  lemma EmitIsInjective(a: Response, b: Response)
    ensures Emit(a) == Emit(b) ==> a == b
  {
  }

  /** `currentDay` returns the current-day record and ignores the date. */
  lemma CurrentDayIgnoresDate(date1: Option<string>, date2: Option<string>, doc: Snapshot)
    ensures Resolve(CurrentDay, date1, doc) == Resolve(CurrentDay, date2, doc) == Found(doc.currentDayStats)
  {
  }

  /** An unknown option is rejected whatever the date and the document hold. */
  lemma InvalidOptionIgnoresInputs(option: string, date1: Option<string>, date2: Option<string>, doc1: Snapshot, doc2: Snapshot)
    requires option != CurrentDay && option != PerDay
    ensures Resolve(option, date1, doc1) == Resolve(option, date2, doc2) == InvalidOption
  {
  }

  /** Without a usable date `perDay` reports the missing parameter, never an unknown day. */
  lemma MissingDateIsNotDayNotFound(date: Option<string>, doc: Snapshot)
    requires date.None? || date == Some("")
    ensures Resolve(PerDay, date, doc) == MissingDayParam
    ensures Emit(Resolve(PerDay, date, doc)) == Reply(400, Error("Missing day body param"))
  {
  }

  /** A non-empty date whose entry is absent or falsy gives 'Day not found' with status 400. */
  lemma UnknownDayIsNotFound(date: string, doc: Snapshot)
    requires date != ""
    requires date !in doc.historicalData || !Truthy(doc.historicalData[date])
    ensures Emit(Resolve(PerDay, Some(date), doc)) == Reply(400, Error("Day not found"))
  {
  }

  /** A non-empty date with a truthy entry returns that entry unchanged, with status 200. */
  lemma KnownDayIsReturned(date: string, doc: Snapshot)
    requires date != "" && date in doc.historicalData && Truthy(doc.historicalData[date])
    ensures Emit(Resolve(PerDay, Some(date), doc)) == Reply(200, Data(doc.historicalData[date]))
  {
  }

  /** The result depends on the document only through the slice it names:
      two documents that agree there give identical responses. */
  lemma ResolveReadsOnlyItsSlice(option: string, date: Option<string>, doc1: Snapshot, doc2: Snapshot)
    requires option == CurrentDay ==> doc1.currentDayStats == doc2.currentDayStats
    requires option == PerDay && DateGiven(date) ==>
      (date.value in doc1.historicalData <==> date.value in doc2.historicalData)
      && (date.value in doc1.historicalData ==> doc1.historicalData[date.value] == doc2.historicalData[date.value])
    ensures Resolve(option, date, doc1) == Resolve(option, date, doc2)
  {
  }

  /** Every successful response is data already in the document. */
  lemma FoundComesFromDocument(option: string, date: Option<string>, doc: Snapshot)
    requires Resolve(option, date, doc).Found?
    ensures var body := Resolve(option, date, doc).body;
      body == doc.currentDayStats || (exists k :: k in doc.historicalData && doc.historicalData[k] == body && Truthy(body))
  {
    if option == PerDay {
      assert date.value in doc.historicalData;
    }
  }

  /** A failed read wins over every other outcome: the switch is never reached. */
  lemma UnreadableStoreFailsEveryRequest(option: string, date: Option<string>)
    ensures Emit(Handle(option, date, None)).status == 500
  {
  }
}
