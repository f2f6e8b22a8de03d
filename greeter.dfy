/** The greeting service: six call handlers over the GreetingLogs table.
    The table is the `logs` field, in the store's natural order, and `nextId`
    is the identity value the store hands to the next inserted row. */
module Greeter {
  import opened Rpc
  import opened Seqs
  import opened Text
  import opened Greetings

  class GreeterService {
    var logs: seq<Record>
    var nextId: int

    ghost predicate Valid()
      reads this
    {
      nextId >= 1 && IdsIncreasing(logs) &&
      forall i :: 0 <= i < |logs| ==> 0 < logs[i].id < nextId
    }

    constructor ()
      ensures Valid() && logs == []
    {
      logs := [];
      nextId := 1;
    }

    /** Validates the request (name, then age, then city; the first failure
        wins), picks the greeting and always inserts a new row. */
    method CreateEvent(request: HelloRequest) returns (r: Result<HelloReply>)
      requires Valid()
      modifies this
      ensures Valid()
      ensures request.name == [] ==> r == Fail(Status(InvalidArgument, "Name is required"))
      ensures request.name != [] && request.age <= 0 ==>
              r == Fail(Status(InvalidArgument, "Age must be a positive integer"))
      ensures request.name != [] && request.age > 0 && request.city == [] ==>
              r == Fail(Status(InvalidArgument, "City is required"))
      ensures r.Ok? <==> request.name != [] && request.age > 0 && request.city != []
      ensures r.Fail? ==> logs == old(logs) && nextId == old(nextId)
      ensures r.Ok? ==> r.value == HelloReply(GreetingFor(old(logs), request), request.name, request.age, request.city)
      ensures r.Ok? ==> logs == old(logs) + [Record(old(nextId), request.name, request.age, request.city, r.value.message)]
      ensures r.Ok? ==> nextId == old(nextId) + 1
      ensures r.Ok? ==> GetGreeter(old(nextId)) == r
    {
      var existing := IndexOfName(logs, request.name);

      if request.name == [] {
        return Fail(Status(InvalidArgument, "Name is required"));
      }
      if request.age <= 0 {
        return Fail(Status(InvalidArgument, "Age must be a positive integer"));
      }
      if request.city == [] {
        return Fail(Status(InvalidArgument, "City is required"));
      }

      var greetingMessage;
      if existing.Some? {
        greetingMessage := WelcomeBack(logs[existing.value]);
      } else {
        greetingMessage := Hello(request);
      }

      var log := Record(nextId, request.name, request.age, request.city, greetingMessage);
      AppendedRowFound(logs, log);
      logs := logs + [log];
      nextId := nextId + 1;

      r := Ok(HelloReply(greetingMessage, request.name, request.age, request.city));
    }

    /** Point lookup by id. A missing id raises NotFound inside the `try`, and
        the catch-all turns every failure into Internal. */
    function GetGreeter(id: int): (r: Result<HelloReply>)
      reads this
      ensures r.Ok? <==> exists i :: 0 <= i < |logs| && logs[i].id == id
      ensures forall i :: 0 <= i < |logs| && logs[i].id == id &&
                          (forall j :: 0 <= j < i ==> logs[j].id != id) ==>
                          r == Ok(StoredReply(logs[i]))
      ensures r.Fail? ==> r.status == Status(Internal, "Failed to retrieve Greeter.")
    {
      var attempt: Result<HelloReply> :=
        match IndexOfId(logs, id)
        case None => Fail(Status(NotFound, UserNotFound(id)))
        case Some(i) => Ok(StoredReply(logs[i]));
      match attempt
      case Ok(reply) => Ok(reply)
      case Fail(_) => Fail(Status(Internal, "Failed to retrieve Greeter."))
    }

    /** Streams the first `count` rows in store order, each as a fresh
        "Hello from" greeting rather than the stored message. */
    method GetManyGreeters(count: int) returns (stream: seq<HelloReply>)
      ensures |stream| == if count <= 0 then 0 else if count < |logs| then count else |logs|
      ensures forall i :: 0 <= i < |stream| ==>
                stream[i] == HelloReply("Hello from " + logs[i].name + "!", logs[i].name, logs[i].age, logs[i].city)
    {
      var take := if count <= 0 then 0 else if count < |logs| then count else |logs|;
      var greeters := logs[..take];
      stream := [];
      for k := 0 to |greeters|
        invariant |stream| == k
        invariant forall i :: 0 <= i < k ==>
                    stream[i] == HelloReply("Hello from " + greeters[i].name + "!", greeters[i].name, greeters[i].age, greeters[i].city)
      {
        var greeter := greeters[k];
        var reply := HelloReply("Hello from " + greeter.name + "!", greeter.name, greeter.age, greeter.city);
        stream := stream + [reply];
      }
    }

    /** Partial update of one row. `saveFails` stands for the database
        rejecting the save, which the handler reports as Internal. */
    method UpdateGreeter(request: UpdateGreeterRequest, saveFails: bool) returns (r: Result<HelloReply>)
      requires Valid()
      modifies this
      ensures Valid() && nextId == old(nextId)
      ensures request.id <= 0 ==> r == Fail(Status(InvalidArgument, "Invalid ID."))
      ensures request.id > 0 && (forall i :: 0 <= i < |old(logs)| ==> old(logs)[i].id != request.id) ==>
              r == Fail(Status(NotFound, GreeterNotFound(request.id)))
      ensures request.id > 0 && (exists i :: 0 <= i < |old(logs)| && old(logs)[i].id == request.id) && saveFails ==>
              r == Fail(Status(Internal, "Failed to update Greeter."))
      ensures r.Ok? <==> request.id > 0 && (exists i :: 0 <= i < |old(logs)| && old(logs)[i].id == request.id) && !saveFails
      ensures r.Fail? ==> logs == old(logs)
      ensures r.Ok? ==> logs == Updated(old(logs), request)
      ensures r.Ok? ==> exists i :: 0 <= i < |logs| && logs[i].id == request.id &&
                                    r.value == HelloReply(GreeterUpdated(request.id), logs[i].name, logs[i].age, logs[i].city)
    {
      if request.id <= 0 {
        return Fail(Status(InvalidArgument, "Invalid ID."));
      }
      var found := IndexOfId(logs, request.id);
      if found.None? {
        return Fail(Status(NotFound, GreeterNotFound(request.id)));
      }
      var i := found.value;
      var greeter := Patched(logs[i], request);
      if saveFails {
        return Fail(Status(Internal, "Failed to update Greeter."));
      }
      logs := logs[i := greeter];
      r := Ok(HelloReply(GreeterUpdated(request.id), greeter.name, greeter.age, greeter.city));
    }

    /** Removes the row with the requested id. */
    method DeleteGreeter(id: int, saveFails: bool) returns (r: Result<GoodByeReply>)
      requires Valid()
      modifies this
      ensures Valid() && nextId == old(nextId)
      ensures id <= 0 ==> r == Fail(Status(InvalidArgument, "Invalid ID."))
      ensures id > 0 && (forall i :: 0 <= i < |old(logs)| ==> old(logs)[i].id != id) ==>
              r == Fail(Status(NotFound, GreeterNotFound(id)))
      ensures id > 0 && (exists i :: 0 <= i < |old(logs)| && old(logs)[i].id == id) && saveFails ==>
              r == Fail(Status(Internal, "Failed to delete Greeter."))
      ensures r.Ok? <==> id > 0 && (exists i :: 0 <= i < |old(logs)| && old(logs)[i].id == id) && !saveFails
      ensures r.Fail? ==> logs == old(logs)
      ensures r.Ok? ==> logs == Deleted(old(logs), id) && |logs| == |old(logs)| - 1
      ensures r.Ok? ==> r.value == GoodByeReply(GreeterDeleted(id))
    {
      if id <= 0 {
        return Fail(Status(InvalidArgument, "Invalid ID."));
      }
      var found := IndexOfId(logs, id);
      if found.None? {
        return Fail(Status(NotFound, GreeterNotFound(id)));
      }
      if saveFails {
        return Fail(Status(Internal, "Failed to delete Greeter."));
      }
      DeletedRows(logs, id);
      logs := logs[..found.value] + logs[found.value + 1..];
      r := Ok(GoodByeReply(GreeterDeleted(id)));
    }

    /** Stateless farewell; the caller's name sits between a fixed prefix and suffix. */
    static function SayGoodBye(name: string): (reply: GoodByeReply)
      ensures |reply.message| == |name| + 29
      ensures reply.message[9..9 + |name|] == name
      ensures reply.message[..9] == "Goodbye, " && reply.message[9 + |name|..] == ". See you next time!"
    {
      GoodByeReply("Goodbye, " + name + ". See you next time!")
    }
  }
}
