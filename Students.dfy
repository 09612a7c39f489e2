/**
  The student directory as values: the table of records, the insertion order
  that Python's dict keeps, and the id counter, with each request of the service
  as a function from the old directory to the new one and the response.

  The flag `checksEmail` selects the variant: `true` is the blueprint version
  (routes/students.py), which validates e-mail addresses; `false` is the older
  self-contained version (main2.py), which stores whatever it is given.
*/
module Students {
  import opened Wrappers
  import Email

  /** A JSON value of a request field, as far as the service distinguishes them. */
  datatype Value = Str(s: string) | Int(i: int)

  /** Python's truth value of a field value. */
  predicate Truthy(v: Value) {
    match v
    case Str(s) => s != ""
    case Int(i) => i != 0
  }

  /** One stored record: the dict `{id, name, age, email}`. */
  datatype Student = Student(id: int, name: Value, age: Value, email: Value)

  /** A decoded JSON object; `None` when the request carries no JSON body. */
  type Fields = map<string, Value>
  type Body = Option<Fields>

  /** `not request.json`: no JSON body, or an empty object. */
  predicate IsFalsy(body: Body) {
    body.None? || body.value == map[]
  }

  /** The create handler's first guard: a falsy body, or one of the three fields missing. */
  predicate LacksRequiredField(body: Body) {
    IsFalsy(body) || "name" !in body.value || "age" !in body.value || "email" !in body.value
  }

  datatype Reason = MissingField | NotJson | InvalidEmail

  /** The outcome of one request.  `Ok` is 201 for a create and 200 otherwise;
      `InternalError` is the 500 Flask sends when `re.match` is handed a value that
      is not a string and raises `TypeError`. */
  datatype Response = Ok(record: Student) | BadRequest(reason: Reason) | NotFound | InternalError

  /** The module-level `students` dict (its entries and their insertion order)
      and the `next_id` counter. */
  datatype Directory = Directory(records: map<int, Student>, order: seq<int>, nextId: int)

  /** The state at start-up: no records, next id 1. */
  const Empty := Directory(map[], [], 1)

  /** What the directory always satisfies: the order lists each key once, in
      increasing order; every record is stored under its own id; every id was
      handed out by the counter. */
  ghost predicate Valid(d: Directory) {
    && d.nextId >= 1
    && (forall k :: k in d.records <==> k in d.order)
    && (forall i, j :: 0 <= i < j < |d.order| ==> d.order[i] < d.order[j])
    && (forall k :: k in d.records ==> d.records[k].id == k && 1 <= k < d.nextId)
  }

  /** A stored e-mail that the blueprint version's validator accepts. */
  predicate IsAcceptedEmail(v: Value) {
    v.Str? && Email.IsValidEmail(v.s)
  }

  /** Every stored record has an accepted e-mail address. */
  ghost predicate EmailsValid(d: Directory) {
    forall k :: k in d.records ==> IsAcceptedEmail(d.records[k].email)
  }

  /** The response of `if not is_valid_email(email)` when the address is not
      accepted: 400 for a string, 500 for anything `re.match` cannot take. */
  function EmailRejection(v: Value): Response {
    if v.Str? then BadRequest(InvalidEmail) else InternalError
  }

  /** The update handler's e-mail guard `if email and not is_valid_email(email)`. */
  predicate RejectsUpdateEmail(fields: Fields) {
    "email" in fields && Truthy(fields["email"]) && !IsAcceptedEmail(fields["email"])
  }

  /** `request.json.get(key, default)`. */
  function FieldOr(fields: Fields, key: string, default: Value): Value {
    if key in fields then fields[key] else default
  }

  /** POST /students. */
  function Create(d: Directory, body: Body, checksEmail: bool): (r: (Directory, Response))
    ensures r.1 == BadRequest(MissingField) <==> LacksRequiredField(body)
    ensures r.1.Ok? <==> !LacksRequiredField(body) && (checksEmail ==> IsAcceptedEmail(body.value["email"]))
    ensures !LacksRequiredField(body) && checksEmail && !IsAcceptedEmail(body.value["email"]) ==>
              r.1 == EmailRejection(body.value["email"])
    ensures !r.1.Ok? ==> r.0 == d
    ensures r.1.Ok? ==>
              && r.1.record == Student(d.nextId, body.value["name"], body.value["age"], body.value["email"])
              && r.0.records == d.records[d.nextId := r.1.record]
              && r.0.order == d.order + [d.nextId]
              && r.0.nextId == d.nextId + 1
  {
    if LacksRequiredField(body) then
      (d, BadRequest(MissingField))
    else if checksEmail && !IsAcceptedEmail(body.value["email"]) then
      (d, EmailRejection(body.value["email"]))
    else
      var fields := body.value;
      var id := d.nextId;
      var student := Student(id, fields["name"], fields["age"], fields["email"]);
      (Directory(d.records[id := student], d.order + [id], id + 1), Ok(student))
  }

  /** GET /students/<id>. */
  function Get(d: Directory, id: int): (r: Response)
    ensures r.Ok? || r.NotFound?
    ensures r.Ok? <==> id in d.records
    ensures r.Ok? ==> r.record == d.records[id]
  {
    if id in d.records then Ok(d.records[id]) else NotFound
  }

  /** PUT /students/<id>. */
  function Update(d: Directory, id: int, body: Body, checksEmail: bool): (r: (Directory, Response))
    ensures r.1 == NotFound <==> id !in d.records
    ensures r.1 == BadRequest(NotJson) <==> id in d.records && IsFalsy(body)
    ensures r.1.Ok? <==> id in d.records && !IsFalsy(body) && !(checksEmail && RejectsUpdateEmail(body.value))
    ensures id in d.records && !IsFalsy(body) && checksEmail && RejectsUpdateEmail(body.value) ==>
              r.1 == EmailRejection(body.value["email"])
    ensures !r.1.Ok? ==> r.0 == d
    ensures r.1.Ok? ==>
              var before := d.records[id];
              && r.1.record.id == before.id
              && r.1.record.name == (if "name" in body.value then body.value["name"] else before.name)
              && r.1.record.age == (if "age" in body.value then body.value["age"] else before.age)
              && r.1.record.email == (if "email" in body.value then body.value["email"] else before.email)
              && r.0 == d.(records := d.records[id := r.1.record])
  {
    if id !in d.records then
      (d, NotFound)
    else if IsFalsy(body) then
      (d, BadRequest(NotJson))
    else if checksEmail && RejectsUpdateEmail(body.value) then
      (d, EmailRejection(body.value["email"]))
    else
      var fields := body.value;
      var before := d.records[id];
      var after := before.(name := FieldOr(fields, "name", before.name))
                         .(age := FieldOr(fields, "age", before.age))
                         .(email := FieldOr(fields, "email", before.email));
      (d.(records := d.records[id := after]), Ok(after))
  }

  /** `list(students.values())`: the records in the order their keys were inserted. */
  function Listing(records: map<int, Student>, order: seq<int>): (r: seq<Student>)
    requires forall k :: k in order ==> k in records
    ensures |r| == |order|
    ensures forall i :: 0 <= i < |order| ==> order[i] in records && r[i] == records[order[i]]
  {
    if order == [] then []
    else
      var last := order[|order| - 1];
      assert last in order;
      Listing(records, order[..|order| - 1]) + [records[last]]
  }

  /** GET /students returns exactly the stored records, each once, in ascending
      id order (the order in which they were inserted). */
  lemma ListingIsDirectory(d: Directory)
    requires Valid(d)
    ensures |Listing(d.records, d.order)| == |d.records|
    ensures forall s :: s in Listing(d.records, d.order) <==> s in d.records.Values
    ensures forall i, j :: 0 <= i < j < |Listing(d.records, d.order)| ==>
              Listing(d.records, d.order)[i].id < Listing(d.records, d.order)[j].id
  {
    OrderCountsKeys(d);
    ListingHoldsRecords(d);
    ListingAscending(d);
  }

  lemma ListingHoldsRecords(d: Directory)
    requires Valid(d)
    ensures forall s :: s in Listing(d.records, d.order) <==> s in d.records.Values
  {
    var l := Listing(d.records, d.order);
    forall k | k in d.records ensures d.records[k] in l {
      var i :| 0 <= i < |d.order| && d.order[i] == k;
      assert l[i] == d.records[k];
    }
    forall s | s in l ensures s in d.records.Values {
      var i :| 0 <= i < |l| && l[i] == s;
      assert d.order[i] in d.order;
    }
  }

  lemma ListingAscending(d: Directory)
    requires Valid(d)
    ensures forall i, j :: 0 <= i < j < |Listing(d.records, d.order)| ==>
              Listing(d.records, d.order)[i].id < Listing(d.records, d.order)[j].id
  {
    var l := Listing(d.records, d.order);
    forall i | 0 <= i < |l| ensures l[i].id == d.order[i] {
      assert d.order[i] in d.order;
    }
  }

  /** An order without repetitions that lists exactly the keys has as many
      entries as there are keys. */
  lemma OrderCountsKeys(d: Directory)
    requires Valid(d)
    ensures |d.order| == |d.records|
  {
    DistinctSize(d.order);
    assert (set i | i in d.order) == d.records.Keys by {
      forall x ensures x in (set i | i in d.order) <==> x in d.records.Keys {
        assert x in d.records <==> x in d.order;
      }
    }
  }

  /** A strictly increasing sequence has as many elements as entries. */
  lemma {:induction false} DistinctSize(s: seq<int>)
    requires forall i, j :: 0 <= i < j < |s| ==> s[i] < s[j]
    ensures |set i | i in s| == |s|
  {
    if s != [] {
      var prefix := s[..|s| - 1];
      var last := s[|s| - 1];
      DistinctSize(prefix);
      assert (set i | i in s) == (set i | i in prefix) + {last};
      assert last !in prefix;
    }
  }

  /** A create keeps the directory consistent. */
  lemma CreatePreservesValid(d: Directory, body: Body, checksEmail: bool)
    requires Valid(d)
    ensures Valid(Create(d, body, checksEmail).0)
  {
    forall i | 0 <= i < |d.order| ensures d.order[i] < d.nextId {
      assert d.order[i] in d.order;
    }
  }

  /** A successful create adds exactly one record, under a key not used before,
      equal to the record's id; every earlier record is untouched; reading the new
      id back returns the record that was returned. */
  lemma CreateInsertsFreshRecord(d: Directory, body: Body, checksEmail: bool)
    requires Valid(d)
    requires Create(d, body, checksEmail).1.Ok?
    ensures var (d', r) := Create(d, body, checksEmail);
      && r.record.id !in d.records
      && d'.records.Keys == d.records.Keys + {r.record.id}
      && (forall k :: k in d.records ==> d'.records[k] == d.records[k])
      && Get(d', r.record.id) == Ok(r.record)
  {
  }

  /** An update keeps the directory consistent. */
  lemma UpdatePreservesValid(d: Directory, id: int, body: Body, checksEmail: bool)
    requires Valid(d)
    ensures Valid(Update(d, id, body, checksEmail).0)
  {
  }

  /** A successful update changes the one record it names and keeps its id; the
      set of keys, the order, the counter and every other record stay the same. */
  lemma UpdateChangesOnlyItsRecord(d: Directory, id: int, body: Body, checksEmail: bool)
    requires Valid(d)
    requires Update(d, id, body, checksEmail).1.Ok?
    ensures var (d', r) := Update(d, id, body, checksEmail);
      && r.record.id == id
      && d'.records.Keys == d.records.Keys
      && d'.order == d.order && d'.nextId == d.nextId
      && (forall k :: k in d.records && k != id ==> d'.records[k] == d.records[k])
      && Get(d', id) == Ok(r.record)
  {
  }

  /** With validation on, a create never stores an address the validator rejects. */
  lemma CreateKeepsEmailsValid(d: Directory, body: Body)
    requires EmailsValid(d)
    ensures EmailsValid(Create(d, body, true).0)
  {
  }

  /** With validation on, an update keeps every stored address valid unless the
      body carries an `email` key whose value is falsy: such a value skips the
      validator and is written all the same. */
  lemma UpdateKeepsEmailsValidUnlessFalsy(d: Directory, id: int, body: Body)
    requires EmailsValid(d)
    requires body.Some? && "email" in body.value ==> Truthy(body.value["email"])
    ensures EmailsValid(Update(d, id, body, true).0)
  {
    var (d', r) := Update(d, id, body, true);
    if r.Ok? {
      forall k | k in d'.records ensures IsAcceptedEmail(d'.records[k].email) {
        if k == id && "email" in body.value {
          assert !RejectsUpdateEmail(body.value);
        }
      }
    }
  }

  /** The gap in the blueprint version: updating any record with the body
      `{"email": ""}` succeeds and stores the empty address, which the validator
      rejects, so stored-address validity does not survive an update. */
  lemma EmptyEmailUpdateBreaksEmailsValid(d: Directory, id: int)
    requires id in d.records
    ensures var (d', r) := Update(d, id, Some(map["email" := Str("")]), true);
      && r.Ok? && r.record.email == Str("")
      && !IsAcceptedEmail(d'.records[id].email)
      && !EmailsValid(d')
  {
    var body: Body := Some(map["email" := Str("")]);
    assert !IsFalsy(body) by { assert "email" in body.value; }
    Email.RejectsWithoutAt("");
  }

  /** The older version validates nothing: a create whose body has the three
      fields always succeeds and stores the e-mail value as given, and an update
      of a present record with a non-empty body always succeeds. */
  lemma UncheckedVersionStoresVerbatim(d: Directory, body: Body, id: int, update: Body)
    requires !LacksRequiredField(body)
    ensures Create(d, body, false).1 == Ok(Student(d.nextId, body.value["name"], body.value["age"], body.value["email"]))
    ensures id in d.records && !IsFalsy(update) ==> Update(d, id, update, false).1.Ok?
  {
  }

  /** A request to the service, without its transport. */
  datatype Request = Post(body: Body) | GetAll | GetOne(id: int) | Put(id: int, body: Body)

  /** The directory after a sequence of requests, and the ids of the records that
      the successful creates among them returned, in order. */
  datatype Trace = Trace(final: Directory, created: seq<int>)

  /** One request: the directory after it, and the id it created, if any. */
  function Serve(d: Directory, request: Request, checksEmail: bool): Trace {
    match request
    case Post(body) =>
      var (d', r) := Create(d, body, checksEmail);
      Trace(d', if r.Ok? then [r.record.id] else [])
    case Put(id, body) => Trace(Update(d, id, body, checksEmail).0, [])
    case GetAll => Trace(d, [])
    case GetOne(_) => Trace(d, [])
  }

  function Replay(d: Directory, requests: seq<Request>, checksEmail: bool): Trace
  {
    if requests == [] then Trace(d, [])
    else
      var prev := Replay(d, requests[..|requests| - 1], checksEmail);
      var last := Serve(prev.final, requests[|requests| - 1], checksEmail);
      Trace(last.final, prev.created + last.created)
  }

  /** The directory holds exactly the records with ids 1 to n, inserted in that
      order, and the counter is at n + 1. */
  ghost predicate NumberedOneTo(d: Directory, created: seq<int>) {
    && Valid(d)
    && (forall i :: 0 <= i < |created| ==> created[i] == i + 1)
    && (forall k :: k in d.records <==> 1 <= k <= |created|)
    && d.order == created
    && d.nextId == |created| + 1
  }

  /** One more request keeps the numbering, extended by the id a successful
      create hands out. */
  lemma ServeKeepsNumbering(d: Directory, created: seq<int>, request: Request, checksEmail: bool)
    requires NumberedOneTo(d, created)
    ensures var t := Serve(d, request, checksEmail); NumberedOneTo(t.final, created + t.created)
  {
    match request
    case Post(body) =>
      CreatePreservesValid(d, body, checksEmail);
    case Put(id, body) =>
      UpdatePreservesValid(d, id, body, checksEmail);
      assert created + [] == created;
    case GetAll =>
      assert created + [] == created;
    case GetOne(_) =>
      assert created + [] == created;
  }

  /** From start-up, whatever reads and updates are interleaved, the creates that
      succeed are handed ids 1, 2, 3, ... with no gap and no reuse, and the keys of
      the table are exactly 1 to their number, in that order. */
  lemma {:induction false} ReplayFromEmptyNumbersRecords(requests: seq<Request>, checksEmail: bool)
    ensures var t := Replay(Empty, requests, checksEmail);
      && Valid(t.final)
      && (forall i :: 0 <= i < |t.created| ==> t.created[i] == i + 1)
      && (forall k :: k in t.final.records <==> 1 <= k <= |t.created|)
      && t.final.order == t.created
      && t.final.nextId == |t.created| + 1
  {
    if requests != [] {
      var prefix := requests[..|requests| - 1];
      ReplayFromEmptyNumbersRecords(prefix, checksEmail);
      var prev := Replay(Empty, prefix, checksEmail);
      ServeKeepsNumbering(prev.final, prev.created, requests[|requests| - 1], checksEmail);
    }
  }

  /** No request removes a record or winds the counter back: the keys only grow. */
  lemma {:induction false} ReplayOnlyGrows(d: Directory, requests: seq<Request>, checksEmail: bool)
    ensures d.records.Keys <= Replay(d, requests, checksEmail).final.records.Keys
    ensures d.nextId <= Replay(d, requests, checksEmail).final.nextId
  {
    if requests != [] {
      ReplayOnlyGrows(d, requests[..|requests| - 1], checksEmail);
    }
  }
}
