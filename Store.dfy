/**
  The request handlers over the module-level state they share: the `students`
  dict (its entries and their insertion order) and the `next_id` counter, both
  updated in place.  Each handler is proved to do what the function of the same
  name in `Students` says, so every lemma proved there holds of the handlers.
*/
module StudentStore {
  import opened Wrappers
  import opened Students

  class Store {
    /** `true` for the blueprint version, which validates e-mail addresses;
        `false` for the older self-contained version, which does not. */
    const checksEmail: bool

    /** The `students` dict: its entries, and its keys in insertion order. */
    var students: map<int, Student>
    var order: seq<int>

    /** The `next_id` counter behind `generate_student_id`. */
    var nextId: int

    /** The store as a value. */
    function State(): Directory
      reads this
    {
      Directory(students, order, nextId)
    }

    ghost predicate Valid()
      reads this
    {
      Students.Valid(State())
    }

    /** The state at start-up: an empty dict and the counter at 1. */
    constructor (checksEmail: bool)
      ensures Valid() && State() == Empty
      ensures this.checksEmail == checksEmail
    {
      this.checksEmail := checksEmail;
      students := map[];
      order := [];
      nextId := 1;
    }

    /** `generate_student_id`: hands out the current counter and advances it. */
    method GenerateId() returns (id: int)
      modifies this`nextId
      ensures id == old(nextId) && nextId == old(nextId) + 1
    {
      id := nextId;
      nextId := nextId + 1;
    }

    /** `create_student`: the shape check, then (blueprint version only) the
        e-mail check, then a fresh id and the insertion. */
    method Create(body: Body) returns (r: Response)
      requires Valid()
      modifies this
      ensures Valid()
      ensures (State(), r) == Students.Create(old(State()), body, checksEmail)
    {
      CreatePreservesValid(State(), body, checksEmail);
      if body.None? || body.value == map[] || "name" !in body.value || "age" !in body.value || "email" !in body.value {
        return BadRequest(MissingField);
      }
      var fields := body.value;
      var email := fields["email"];
      if checksEmail && !(email.Str? && Email.IsValidEmail(email.s)) {
        return EmailRejection(email);
      }
      var id := GenerateId();
      var student := Student(id, fields["name"], fields["age"], email);
      students := students[id := student];
      order := order + [id];
      return Ok(student);
    }

    /** `get_students`: every stored record once, in insertion order, which is
        ascending id order. */
    method List() returns (r: seq<Student>)
      requires Valid()
      ensures r == Listing(students, order)
      ensures |r| == |students|
      ensures forall s :: s in r <==> s in students.Values
      ensures forall i, j :: 0 <= i < j < |r| ==> r[i].id < r[j].id
    {
      r := [];
      var i := 0;
      while i < |order|
        invariant 0 <= i <= |order|
        invariant forall k :: k in order[..i] ==> k in students
        invariant r == Listing(students, order[..i])
      {
        assert order[i] in order;
        assert order[..i + 1][..i] == order[..i];
        r := r + [students[order[i]]];
        i := i + 1;
      }
      assert order[..i] == order;
      ListingIsDirectory(State());
    }

    /** `get_student`: the record stored under `id`, or 404. */
    method Get(id: int) returns (r: Response)
      ensures r == Students.Get(State(), id)
    {
      if id in students {
        r := Ok(students[id]);
      } else {
        r := NotFound;
      }
    }

    /** `update_student`: 404 for an unknown id, then 400 for a falsy body, then
        (blueprint version only) 400 for a non-empty invalid e-mail; then the
        stored record's fields are overwritten one by one with those supplied. */
    method Update(id: int, body: Body) returns (r: Response)
      requires Valid()
      modifies this
      ensures Valid()
      ensures (State(), r) == Students.Update(old(State()), id, body, checksEmail)
    {
      UpdatePreservesValid(State(), id, body, checksEmail);
      if id !in students {
        return NotFound;
      }
      if body.None? || body.value == map[] {
        return BadRequest(NotJson);
      }
      var fields := body.value;
      if checksEmail && "email" in fields && Truthy(fields["email"]) {
        var email := fields["email"];
        if !(email.Str? && Email.IsValidEmail(email.s)) {
          return EmailRejection(email);
        }
      }
      ghost var before := students;
      students := students[id := students[id].(name := FieldOr(fields, "name", students[id].name))];
      students := students[id := students[id].(age := FieldOr(fields, "age", students[id].age))];
      students := students[id := students[id].(email := FieldOr(fields, "email", students[id].email))];
      assert students == before[id := students[id]];
      return Ok(students[id]);
    }
  }
}
