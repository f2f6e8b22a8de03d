/** Greeting records as values, the messages the service composes, and the
    table-level meaning of each store operation. The stateful handlers in
    module Greeter are proved against these definitions. */
module Greetings {
  import opened Seqs
  import opened Text

  /** One row of the GreetingLogs table. */
  datatype Record = Record(id: int, name: string, age: int, city: string, message: string)

  datatype HelloRequest = HelloRequest(name: string, age: int, city: string)
  datatype UpdateGreeterRequest = UpdateGreeterRequest(id: int, name: string, age: int, city: string)
  datatype HelloReply = HelloReply(message: string, name: string, age: int, city: string)
  datatype GoodByeReply = GoodByeReply(message: string)

  // ---------------------------------------------------------------- messages

  function WelcomeBack(existing: Record): string
  {
    "Welcome back, " + existing.name + " from " + existing.city + "!"
  }

  function Hello(request: HelloRequest): string
  {
    "Hello " + request.name + ", age " + IntToDecimal(request.age) + ", from " + request.city
  }

  function UserNotFound(id: int): string { "User " + IntToDecimal(id) + " not found." }

  function GreeterNotFound(id: int): string { "Greeter with ID " + IntToDecimal(id) + " not found." }

  function GreeterUpdated(id: int): string { "Greeter with ID " + IntToDecimal(id) + " updated successfully!" }

  function GreeterDeleted(id: int): string
  {
    "Greeter with ID " + IntToDecimal(id) + " has been deleted successfully!"
  }

  /** A stored row as GetGreeter returns it: the persisted message, not a new one. */
  function StoredReply(row: Record): HelloReply
  {
    HelloReply(row.message, row.name, row.age, row.city)
  }

  lemma CancelAround(prefix: string, x: string, y: string, suffix: string)
    requires prefix + x + suffix == prefix + y + suffix
    ensures x == y
  {
    var whole := prefix + x + suffix;
    assert |x| == |y|;
    assert x == whole[|prefix|..|prefix| + |x|];
    assert y == (prefix + y + suffix)[|prefix|..|prefix| + |y|];
  }

  /** A confirmation names exactly one id: different ids give different messages. */
  lemma ConfirmationsNameTheirId(a: int, b: int)
    ensures GreeterUpdated(a) == GreeterUpdated(b) ==> a == b
    ensures GreeterDeleted(a) == GreeterDeleted(b) ==> a == b
    ensures GreeterNotFound(a) == GreeterNotFound(b) ==> a == b
  {
    if GreeterUpdated(a) == GreeterUpdated(b) {
      CancelAround("Greeter with ID ", IntToDecimal(a), IntToDecimal(b), " updated successfully!");
      IntToDecimalInjective(a, b);
    }
    if GreeterDeleted(a) == GreeterDeleted(b) {
      CancelAround("Greeter with ID ", IntToDecimal(a), IntToDecimal(b), " has been deleted successfully!");
      IntToDecimalInjective(a, b);
    }
    if GreeterNotFound(a) == GreeterNotFound(b) {
      CancelAround("Greeter with ID ", IntToDecimal(a), IntToDecimal(b), " not found.");
      IntToDecimalInjective(a, b);
    }
  }

  // ------------------------------------------------------------------ lookups

  /** Store order is insertion order and ids come from an identity column. */
  predicate IdsIncreasing(rows: seq<Record>)
  {
    forall i, j :: 0 <= i < j < |rows| ==> rows[i].id < rows[j].id
  }

  /** `FirstOrDefault(g => g.Id == id)`. */
  function IndexOfId(rows: seq<Record>, id: int): Option<nat>
  {
    FirstIndex(rows, (r: Record) => r.id == id)
  }

  /** `FirstOrDefault(g => g.Name == name)`. */
  function IndexOfName(rows: seq<Record>, name: string): Option<nat>
  {
    FirstIndex(rows, (r: Record) => r.name == name)
  }

  /** With increasing ids, the row carrying an id is the one the lookup finds. */
  lemma IndexOfIdExact(rows: seq<Record>, i: nat)
    requires IdsIncreasing(rows) && i < |rows|
    ensures IndexOfId(rows, rows[i].id) == Some(i)
  {
  }

  // --------------------------------------------------------------- CreateEvent

  /** The message CreateEvent stores and returns: a welcome back built from the
      first stored row with the requested name, else a hello built from the request. */
  function GreetingFor(rows: seq<Record>, request: HelloRequest): (m: string)
    ensures (forall i :: 0 <= i < |rows| ==> rows[i].name != request.name) ==> m == Hello(request)
    ensures forall i :: 0 <= i < |rows| && rows[i].name == request.name &&
                        (forall j :: 0 <= j < i ==> rows[j].name != request.name) ==>
                        m == WelcomeBack(rows[i])
  {
    match IndexOfName(rows, request.name)
    case Some(i) => WelcomeBack(rows[i])
    case None => Hello(request)
  }

  /** The row appended by CreateEvent is found again by its fresh id. */
  lemma AppendedRowFound(rows: seq<Record>, row: Record)
    requires IdsIncreasing(rows)
    requires forall i :: 0 <= i < |rows| ==> rows[i].id < row.id
    ensures IdsIncreasing(rows + [row])
    ensures IndexOfId(rows + [row], row.id) == Some(|rows|)
  {
    IndexOfIdExact(rows + [row], |rows|);
  }

  // ------------------------------------------------------------- UpdateGreeter

  /** Partial update of one row: a text field only when a non-empty value is
      supplied, the age only when a positive one is. */
  function Patched(row: Record, request: UpdateGreeterRequest): Record
  {
    row.(name := if request.name != [] then request.name else row.name,
         age := if request.age > 0 then request.age else row.age,
         city := if request.city != [] then request.city else row.city)
  }

  /** The table after UpdateGreeter has changed the row with the requested id. */
  function Updated(rows: seq<Record>, request: UpdateGreeterRequest): (u: seq<Record>)
    ensures |u| == |rows|
    ensures forall i :: 0 <= i < |rows| ==> u[i].id == rows[i].id && u[i].message == rows[i].message
    ensures forall i :: 0 <= i < |rows| && rows[i].id != request.id ==> u[i] == rows[i]
  {
    match IndexOfId(rows, request.id)
    case None => rows
    case Some(i) => rows[i := Patched(rows[i], request)]
  }

  /** What the updated row holds, field by field. */
  lemma UpdatedRow(rows: seq<Record>, request: UpdateGreeterRequest, i: nat)
    requires IdsIncreasing(rows) && i < |rows| && rows[i].id == request.id
    ensures var u := Updated(rows, request)[i];
            u.id == rows[i].id && u.message == rows[i].message &&
            u.name == (if request.name != [] then request.name else rows[i].name) &&
            u.age == (if request.age > 0 then request.age else rows[i].age) &&
            u.city == (if request.city != [] then request.city else rows[i].city)
  {
    IndexOfIdExact(rows, i);
  }

  /** Applying the same update twice equals applying it once. */
  lemma {:induction false} UpdateIdempotent(rows: seq<Record>, request: UpdateGreeterRequest)
    ensures Updated(Updated(rows, request), request) == Updated(rows, request)
  {
    var once := Updated(rows, request);
    var p := (r: Record) => r.id == request.id;
    FirstIndexCongruent(rows, p, once, p);
  }

  // ------------------------------------------------------------- DeleteGreeter

  /** The table after DeleteGreeter has removed the row with the given id. */
  function Deleted(rows: seq<Record>, id: int): (d: seq<Record>)
    ensures IndexOfId(rows, id).None? ==> d == rows
    ensures IndexOfId(rows, id).Some? ==> |d| == |rows| - 1
  {
    match IndexOfId(rows, id)
    case None => rows
    case Some(i) => rows[..i] + rows[i + 1..]
  }

  /** Removing one row keeps the others in their order. */
  lemma RemoveAtKeepsOrder(rows: seq<Record>, i: nat)
    requires IdsIncreasing(rows) && i < |rows|
    ensures IdsIncreasing(rows[..i] + rows[i + 1..])
  {
    var d := rows[..i] + rows[i + 1..];
    forall a, b | 0 <= a < b < |d| ensures d[a].id < d[b].id {
      var a', b' := if a < i then a else a + 1, if b < i then b else b + 1;
      assert d[a] == rows[a'] && d[b] == rows[b'];
    }
  }

  /** Removing one row drops exactly the rows with its id. */
  lemma RemoveAtMembers(rows: seq<Record>, i: nat)
    requires IdsIncreasing(rows) && i < |rows|
    ensures forall x :: x in rows[..i] + rows[i + 1..] <==> x in rows && x.id != rows[i].id
  {
    var d := rows[..i] + rows[i + 1..];
    forall x ensures x in d <==> x in rows && x.id != rows[i].id {
      if x in rows && x.id != rows[i].id {
        var k :| 0 <= k < |rows| && rows[k] == x;
        if k < i { assert d[k] == x; } else { assert d[k - 1] == x; }
      }
      if x in d {
        var k :| 0 <= k < |d| && d[k] == x;
        var k' := if k < i then k else k + 1;
        assert rows[k'] == x && k' != i;
      }
    }
  }

  /** Deleting keeps every other row, in order, and nothing else. */
  lemma DeletedRows(rows: seq<Record>, id: int)
    requires IdsIncreasing(rows)
    ensures IdsIncreasing(Deleted(rows, id))
    ensures forall x :: x in Deleted(rows, id) <==> x in rows && x.id != id
  {
    match IndexOfId(rows, id)
    case None =>
    case Some(i) =>
      RemoveAtKeepsOrder(rows, i);
      RemoveAtMembers(rows, i);
  }

  /** Once deleted, an id is not found again. */
  lemma DeleteIsFinal(rows: seq<Record>, id: int)
    requires IdsIncreasing(rows)
    ensures IndexOfId(Deleted(rows, id), id).None?
  {
    DeletedRows(rows, id);
    var d := Deleted(rows, id);
    forall j | 0 <= j < |d| ensures d[j].id != id {
      assert d[j] in d;
    }
  }

  // ------------------------------------------------------------------- examples

  /** A returning name is welcomed with the stored city, not the requested one. */
  lemma WelcomeBackUsesStoredCity()
    ensures GreetingFor([Record(1, "Ann", 30, "Paris", "Hello Ann, age 30, from Paris")],
                        HelloRequest("Ann", 5, "Rome")) == "Welcome back, Ann from Paris!"
  {
  }
}
