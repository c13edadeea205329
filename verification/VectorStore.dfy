/**
  The server's store of named integer vectors: a doubling array of records with
  linear search and deletion by shifting, and the client calls that guard it.
*/
module VectorStore {
  import opened Wrappers

  const VECTOR_NAME := 100
  const INITIAL_CAPACITY := 2

  /** operation: 0 init, 1 set, 2 get, 3 destroy. */
  datatype Request = Request(operation: int, name: string, arg1: int, arg2: int)

  /** `data` is filled in by a successful get only. */
  datatype Response = Response(output: int, data: Option<int>)

  /** One stored vector as a value. */
  datatype Entry = Entry(name: string, values: seq<int>)

  // ---------- the store as a sequence of entries ----------

  /** First entry with that name, or -1. */
  function IndexOf(c: seq<Entry>, name: string): (i: int)
    ensures -1 <= i < |c|
    ensures i >= 0 ==> c[i].name == name && forall j :: 0 <= j < i ==> c[j].name != name
    ensures i == -1 ==> forall j :: 0 <= j < |c| ==> c[j].name != name
  {
    if c == [] then -1
    else if c[0].name == name then 0
    else var i := IndexOf(c[1..], name); if i == -1 then -1 else i + 1
  }

  lemma FirstIs(c: seq<Entry>, name: string, i: nat)
    requires i < |c| && c[i].name == name && forall j :: 0 <= j < i ==> c[j].name != name
    ensures IndexOf(c, name) == i
  {
  }

  function Zeros(n: nat): (r: seq<int>)
    ensures |r| == n && forall i :: 0 <= i < n ==> r[i] == 0
  {
    seq(n, _ => 0)
  }

  /** What one request does, served alone. */
  function Serve(c: seq<Entry>, req: Request): (seq<Entry>, Response)
    requires 1 <= req.operation <= 2 ==> req.arg1 >= 0
  {
    var i := IndexOf(c, req.name);
    match req.operation
    case 0 =>
      if i == -1 && req.arg1 < 0 then (c, Response(-1, None))
      else if i == -1 then (c + [Entry(req.name, Zeros(req.arg1))], Response(1, None))
      else if |c[i].values| == req.arg1 then (c, Response(0, None))
      else (c, Response(-1, None))
    case 1 =>
      if i == -1 || |c[i].values| <= req.arg1 then (c, Response(-1, None))
      else (c[i := Entry(req.name, c[i].values[req.arg1 := req.arg2])], Response(0, None))
    case 2 =>
      if i == -1 || |c[i].values| <= req.arg1 then (c, Response(-1, None))
      else (c, Response(i, Some(c[i].values[req.arg1])))
    case 3 =>
      if i == -1 then (c, Response(-1, None))
      else (c[..i] + c[i + 1..], Response(1, None))
    case _ => (c, Response(-1, None))
  }

  /** Position, before slot r was removed, of what is at i now. */
  function Without(r: nat, i: nat): (k: nat)
    ensures k != r && i <= k <= i + 1
  {
    if i < r then i else i + 1
  }

  ghost predicate DistinctNames(c: seq<Entry>) {
    forall i, j :: 0 <= i < j < |c| ==> c[i].name != c[j].name
  }

  predicate PowerOfTwo(n: nat) {
    n == 1 || (n > 1 && n % 2 == 0 && PowerOfTwo(n / 2))
  }

  // ---------- the array ----------

  /** The C record; `elements` points to `size` integers. */
  datatype Vector = Vector(name: string, size: nat, elements: array<int>)

  class Storage {
    var capacity: nat
    var size: nat
    var vectors: array<Vector>
    ghost var contents: seq<Entry>
    ghost var moved: nat       // records moved by reallocation so far
    ghost var created: nat     // vectors created so far
    ghost var Repr: set<object>

    /** The records in use, and the sequence of entries they stand for. */
    ghost predicate Shape()
      reads this, Repr
    {
      && this in Repr && vectors in Repr && capacity == vectors.Length && size <= capacity && |contents| == size
      && (forall i :: 0 <= i < size ==> vectors[i].elements in Repr && vectors[i].elements.Length == vectors[i].size)
      && (forall i, j :: 0 <= i < j < size ==> vectors[i].elements != vectors[j].elements)
      && (forall i :: 0 <= i < size ==> contents[i] == Entry(vectors[i].name, vectors[i].elements[..]))
    }

    /** What growth by doubling has cost so far. */
    ghost predicate Thrifty()
      reads this
    {
      && capacity >= INITIAL_CAPACITY && PowerOfTwo(capacity) && moved == capacity - INITIAL_CAPACITY
      && size <= created && (capacity == INITIAL_CAPACITY || capacity < 2 * created)
    }

    ghost predicate Valid()
      reads this, Repr
    {
      Shape() && DistinctNames(contents) && Thrifty()
    }

    constructor ()
      ensures Valid() && fresh(Repr) && contents == [] && created == 0
    {
      capacity, size := INITIAL_CAPACITY, 0;
      var none := new int[0];
      vectors := new Vector[INITIAL_CAPACITY](_ => Vector("", 0, none));
      contents, moved, created := [], 0, 0;
      new;
      Repr := {this, vectors};
      assert PowerOfTwo(1);
    }

    method FindVector(name: string) returns (r: int)
      requires Shape()
      ensures r == IndexOf(contents, name)
    {
      for ii := 0 to size
        invariant forall j :: 0 <= j < ii ==> contents[j].name != name
      {
        if vectors[ii].name == name {
          return ii;
        }
      }
      return -1;
    }

    /** Doubles the array; every record moves. */
    method Grow(filler: Vector)
      requires Shape()
      modifies this`capacity, this`vectors, this`moved, this`Repr
      ensures Shape() && fresh(vectors) && Repr == old(Repr) + {vectors}
      ensures capacity == 2 * old(capacity) && moved == old(moved) + size
    {
      capacity := 2 * capacity;
      var grown := new Vector[capacity](_ => filler);
      forall i | 0 <= i < size {
        grown[i] := vectors[i];
      }
      vectors := grown;
      moved := moved + size;
      Repr := Repr + {grown};
    }

    /** Puts a record into the slot behind the last one. */
    method Place(vector: Vector)
      requires Shape() && size < capacity
      requires vector.elements !in Repr && vector.elements.Length == vector.size
      modifies this`size, this`contents, this`Repr, vectors
      ensures Shape() && Repr == old(Repr) + {vector.elements} && size == old(size) + 1
      ensures contents == old(contents) + [Entry(vector.name, vector.elements[..])]
    {
      vectors[size] := vector;
      size := size + 1;
      contents := contents + [Entry(vector.name, vector.elements[..])];
      Repr := Repr + {vector.elements};
    }

    /** Makes sure there is a free slot. */
    method MakeRoom(filler: Vector)
      requires Shape() && Thrifty()
      modifies this`capacity, this`vectors, this`moved, this`Repr
      ensures Shape() && size < capacity && Repr == old(Repr) + {vectors} && (vectors == old(vectors) || fresh(vectors))
      ensures PowerOfTwo(capacity) && moved == capacity - INITIAL_CAPACITY
      ensures capacity == INITIAL_CAPACITY || INITIAL_CAPACITY < capacity < 2 * (created + 1)
    {
      if size >= capacity {
        Grow(filler);
      }
    }

    /** Appends a record, doubling the array first when it is full. */
    method Append(vector: Vector)
      requires Valid() && IndexOf(contents, vector.name) == -1
      requires vector.elements !in Repr && vector.elements.Length == vector.size
      modifies this, vectors
      ensures Valid() && fresh(Repr - old(Repr) - {vector.elements})
      ensures contents == old(contents) + [Entry(vector.name, vector.elements[..])]
      ensures created == old(created) + 1
    {
      MakeRoom(vector);
      Place(vector);
      created := created + 1;
    }

    /** Shifts the records behind slot r down by one. */
    method ShiftDown(r: nat)
      requires r < size <= vectors.Length
      modifies vectors
      ensures forall i :: 0 <= i < size - 1 ==> vectors[i] == old(vectors[Without(r, i)])
    {
      ghost var was := vectors[..];
      for ii := r to size - 1
        invariant forall i :: 0 <= i < vectors.Length ==> vectors[i] == was[if i < ii then Without(r, i) else i]
      {
        vectors[ii] := vectors[ii + 1];
      }
    }

    /** Deletes the record in slot r. */
    method Remove(r: nat)
      requires Valid() && r < size
      modifies this`size, this`contents, vectors
      ensures Valid() && contents == old(contents)[..r] + old(contents)[r + 1..]
    {
      WithoutKeepsDistinct(contents, r);
      ShiftDown(r);
      size := size - 1;
      contents := contents[..r] + contents[r + 1..];
    }

    /** Writes one element; no other vector shares it. */
    method SetElement(r: nat, k: nat, value: int)
      requires Valid() && r < size && k < vectors[r].size
      modifies this`contents, vectors[r].elements
      ensures Valid()
      ensures contents == old(contents)[r := Entry(old(contents)[r].name, old(contents)[r].values[k := value])]
    {
      vectors[r].elements[k] := value;
      contents := contents[r := Entry(contents[r].name, contents[r].values[k := value])];
    }

    /** Serves one request; the store and the answer change as Serve says. */
    method FunctionSelector(req: Request) returns (response: Response)
      requires Valid() && (1 <= req.operation <= 2 ==> req.arg1 >= 0)
      modifies Repr
      ensures Valid() && fresh(Repr - old(Repr))
      ensures (contents, response) == Serve(old(contents), req)
      ensures created == old(created) + (if req.operation == 0 && response.output == 1 then 1 else 0)
    {
      var result := FindVector(req.name);
      if req.operation == 0 {
        if result == -1 {
          if req.arg1 < 0 {
            return Response(-1, None);   // no memory can be had for a negative number of elements
          }
          var elements := new int[req.arg1](_ => 0);
          Append(Vector(req.name, req.arg1, elements));
          assert elements[..] == Zeros(req.arg1);
          return Response(1, None);
        } else if vectors[result].size == req.arg1 {
          return Response(0, None);
        }
        return Response(-1, None);
      } else if req.operation == 1 {
        if result == -1 || vectors[result].size - 1 < req.arg1 {
          return Response(-1, None);
        }
        SetElement(result, req.arg1, req.arg2);
        return Response(0, None);
      } else if req.operation == 2 {
        if result == -1 || vectors[result].size - 1 < req.arg1 {
          return Response(-1, None);
        }
        return Response(result, Some(vectors[result].elements[req.arg1]));
      } else if req.operation == 3 {
        if result == -1 {
          return Response(-1, None);
        }
        Remove(result);
        return Response(1, None);
      }
      return Response(-1, None);
    }
  }

  // ---------- the store as a map, seen from a client ----------

  datatype Call =
    | Init(name: string, n: int)
    | Set(name: string, i: int, value: int)
    | Get(name: string, i: int)
    | Destroy(name: string)

  /** The request a call sends, unless a guard of the client turns it down. */
  function RequestFor(call: Call): Option<Request> {
    if |call.name| + 1 > VECTOR_NAME then None
    else match call
      case Init(name, n) => if n < 0 then None else Some(Request(0, name, n, 0))
      case Set(name, i, value) => if i < 0 then None else Some(Request(1, name, i, value))
      case Get(name, i) => if i < 0 then None else Some(Request(2, name, i, 0))
      case Destroy(name) => Some(Request(3, name, 0, 0))
  }

  /** A call served by a store with contents `c`; a refused call never reaches it. */
  function CallOn(c: seq<Entry>, call: Call): (seq<Entry>, Response) {
    match RequestFor(call)
    case None => (c, Response(-1, None))
    case Some(req) => Serve(c, req)
  }

  /** 1 for a call that created a vector. */
  function Creation(call: Call, r: Response): nat {
    if call.Init? && r.output == 1 then 1 else 0
  }

  function Creations(calls: seq<Call>, rs: seq<Response>): nat
    requires |calls| == |rs|
  {
    if calls == [] then 0 else Creation(calls[0], rs[0]) + Creations(calls[1..], rs[1..])
  }

  method Perform(storage: Storage, call: Call) returns (response: Response)
    requires storage.Valid()
    modifies storage.Repr
    ensures storage.Valid() && fresh(storage.Repr - old(storage.Repr))
    ensures (storage.contents, response) == CallOn(old(storage.contents), call)
    ensures storage.created == old(storage.created) + Creation(call, response)
  {
    var req := RequestFor(call);
    if req.None? {
      return Response(-1, None);
    }
    response := storage.FunctionSelector(req.value);
  }

  type Vectors = map<string, seq<int>>

  datatype Outcome = Created | AlreadyThere | Stored | Value(v: int) | Destroyed | Failed

  /** What the calls are for, on a map from names to vectors. */
  function MapCall(m: Vectors, call: Call): (Vectors, Outcome) {
    if |call.name| + 1 > VECTOR_NAME then (m, Failed)
    else match call
      case Init(name, n) =>
        if n < 0 then (m, Failed)
        else if name !in m then (m[name := Zeros(n)], Created)
        else (m, if |m[name]| == n then AlreadyThere else Failed)
      case Set(name, i, value) =>
        if name in m && 0 <= i < |m[name]| then (m[name := m[name][i := value]], Stored) else (m, Failed)
      case Get(name, i) =>
        (m, if name in m && 0 <= i < |m[name]| then Value(m[name][i]) else Failed)
      case Destroy(name) =>
        if name in m then (m - {name}, Destroyed) else (m, Failed)
  }

  /** The integers that stand for an outcome; a successful get may return any slot index. */
  predicate Encodes(r: Response, o: Outcome) {
    match o
    case Created => r.output == 1 && r.data.None?
    case AlreadyThere => r.output == 0 && r.data.None?
    case Stored => r.output == 0 && r.data.None?
    case Value(v) => r.output != -1 && r.data == Some(v)
    case Destroyed => r.output == 1 && r.data.None?
    case Failed => r.output == -1 && r.data.None?
  }

  ghost function AsMap(c: seq<Entry>): Vectors {
    map name | name in (set i | 0 <= i < |c| :: c[i].name) :: c[IndexOf(c, name)].values
  }

  lemma InMap(c: seq<Entry>, name: string)
    ensures name in AsMap(c) <==> IndexOf(c, name) != -1
    ensures name in AsMap(c) ==> AsMap(c)[name] == c[IndexOf(c, name)].values
  {
    var i := IndexOf(c, name);
    if i != -1 {
      assert c[i].name in (set k | 0 <= k < |c| :: c[k].name);
    }
  }

  lemma EntryInMap(c: seq<Entry>, i: nat)
    requires DistinctNames(c) && i < |c|
    ensures c[i].name in AsMap(c) && AsMap(c)[c[i].name] == c[i].values
  {
    FirstIs(c, c[i].name, i);
    InMap(c, c[i].name);
  }

  /** Two maps agree if the entries of the store are exactly those of the map. */
  lemma MapIs(c: seq<Entry>, m: Vectors)
    requires DistinctNames(c)
    requires forall i :: 0 <= i < |c| ==> c[i].name in m && m[c[i].name] == c[i].values
    requires forall name :: name in m ==> exists i :: 0 <= i < |c| && c[i].name == name
    ensures AsMap(c) == m
  {
    forall name ensures name in AsMap(c) <==> name in m {
      InMap(c, name);
    }
    forall name | name in m ensures AsMap(c)[name] == m[name] {
      InMap(c, name);
    }
  }

  lemma AppendKeepsIndex(c: seq<Entry>, e: Entry, name: string)
    requires IndexOf(c, e.name) == -1
    ensures IndexOf(c + [e], name) == if name == e.name then |c| else IndexOf(c, name)
  {
    if name == e.name {
      FirstIs(c + [e], name, |c|);
    } else if IndexOf(c, name) != -1 {
      FirstIs(c + [e], name, IndexOf(c, name));
    }
  }

  lemma InitOnMap(c: seq<Entry>, name: string, n: nat)
    requires DistinctNames(c) && IndexOf(c, name) == -1
    ensures var d := c + [Entry(name, Zeros(n))]; DistinctNames(d) && AsMap(d) == AsMap(c)[name := Zeros(n)]
  {
    hide AsMap, Zeros;
    var d := c + [Entry(name, Zeros(n))];
    var m := AsMap(c)[name := Zeros(n)];
    forall k ensures (k in AsMap(d) <==> k in m) && (k in m ==> AsMap(d)[k] == m[k]) {
      AppendKeepsIndex(c, Entry(name, Zeros(n)), k);
      InMap(c, k);
      InMap(d, k);
    }
  }

  lemma SetOnMap(c: seq<Entry>, i: nat, values: seq<int>)
    requires DistinctNames(c) && i < |c|
    ensures var d := c[i := Entry(c[i].name, values)]; DistinctNames(d) && AsMap(d) == AsMap(c)[c[i].name := values]
  {
    var d := c[i := Entry(c[i].name, values)];
    var m := AsMap(c)[c[i].name := values];
    forall k | 0 <= k < |d| ensures d[k].name in m && m[d[k].name] == d[k].values {
      EntryInMap(c, k);
    }
    forall k | k in m ensures exists j :: 0 <= j < |d| && d[j].name == k {
      EntryInMap(c, i);
      InMap(c, k);
      assert d[IndexOf(c, k)].name == k;
    }
    MapIs(d, m);
  }

  lemma WithoutKeepsDistinct(c: seq<Entry>, i: nat)
    requires DistinctNames(c) && i < |c|
    ensures var d := c[..i] + c[i + 1..];
            && DistinctNames(d)
            && (forall k :: 0 <= k < |d| ==> d[k] == c[Without(i, k)])
            && (forall k :: 0 <= k < |d| ==> d[k].name != c[i].name)
  {
  }

  lemma StaysStored(c: seq<Entry>, i: nat, k: nat) returns (j: nat)
    requires i < |c| && k < |c| && k != i
    ensures var d := c[..i] + c[i + 1..]; j < |d| && d[j] == c[k]
  {
    j := if k < i then k else k - 1;
  }

  lemma DestroyOnMap(c: seq<Entry>, i: nat)
    requires DistinctNames(c) && i < |c|
    ensures var d := c[..i] + c[i + 1..]; DistinctNames(d) && AsMap(d) == AsMap(c) - {c[i].name}
  {
    WithoutKeepsDistinct(c, i);
    var d := c[..i] + c[i + 1..];
    var m := AsMap(c) - {c[i].name};
    forall k | 0 <= k < |d| ensures d[k].name in m && m[d[k].name] == d[k].values {
      EntryInMap(c, Without(i, k));
    }
    forall name | name in m ensures exists j :: 0 <= j < |d| && d[j].name == name {
      InMap(c, name);
      var j := StaysStored(c, i, IndexOf(c, name));
    }
    MapIs(d, m);
  }

  /** One call on the store is one call on the map. */
  lemma CallRefinesMap(c: seq<Entry>, call: Call)
    requires DistinctNames(c)
    ensures var (d, r) := CallOn(c, call);
            var (m, o) := MapCall(AsMap(c), call);
            DistinctNames(d) && AsMap(d) == m && Encodes(r, o)
  {
    hide AsMap, DistinctNames, IndexOf;
    InMap(c, call.name);
    var i := IndexOf(c, call.name);
    if RequestFor(call).Some? {
      match call
      case Init(name, n) => if i == -1 { InitOnMap(c, name, n); }
      case Set(name, k, value) =>
        if i != -1 && k < |c[i].values| { SetOnMap(c, i, c[i].values[k := value]); }
      case Get(_, _) =>
      case Destroy(_) => if i != -1 { DestroyOnMap(c, i); }
    }
  }

  function History(c: seq<Entry>, calls: seq<Call>): (seq<Entry>, seq<Response>)
    decreases |calls|
  {
    if calls == [] then (c, [])
    else
      var (d, r) := CallOn(c, calls[0]);
      var (e, rs) := History(d, calls[1..]);
      (e, [r] + rs)
  }

  function MapHistory(m: Vectors, calls: seq<Call>): (Vectors, seq<Outcome>)
    decreases |calls|
  {
    if calls == [] then (m, [])
    else
      var (n, o) := MapCall(m, calls[0]);
      var (k, os) := MapHistory(n, calls[1..]);
      (k, [o] + os)
  }

  /** Every history of calls is answered as the map answers it. */
  lemma {:induction false} StoreRefinesMap(c: seq<Entry>, calls: seq<Call>)
    requires DistinctNames(c)
    ensures var (d, rs) := History(c, calls);
            var (m, os) := MapHistory(AsMap(c), calls);
            && DistinctNames(d) && AsMap(d) == m && |rs| == |os| == |calls|
            && forall k :: 0 <= k < |calls| ==> Encodes(rs[k], os[k])
    decreases |calls|
  {
    if calls != [] {
      CallRefinesMap(c, calls[0]);
      StoreRefinesMap(CallOn(c, calls[0]).0, calls[1..]);
    }
  }

  lemma HistoryAnswersAll(c: seq<Entry>, calls: seq<Call>)
    ensures |History(c, calls).1| == |calls|
    decreases |calls|
  {
  }

  /** Serves a history of calls, one at a time. */
  method PerformAll(storage: Storage, calls: seq<Call>) returns (responses: seq<Response>)
    requires storage.Valid()
    modifies storage.Repr
    ensures storage.Valid() && fresh(storage.Repr - old(storage.Repr))
    ensures (storage.contents, responses) == History(old(storage.contents), calls) && |responses| == |calls|
    ensures storage.created == old(storage.created) + Creations(calls, responses)
    decreases |calls|
  {
    HistoryAnswersAll(storage.contents, calls);
    if calls == [] {
      return [];
    }
    var first := Perform(storage, calls[0]);
    var others := PerformAll(storage, calls[1..]);
    responses := [first] + others;
  }

  /**
    A new server and any history of client calls: every answer is the one the
    map gives, and doubling has moved fewer than two records per created vector.
  */
  method ServeHistory(calls: seq<Call>) returns (storage: Storage, responses: seq<Response>)
    ensures fresh(storage) && storage.Valid() && |responses| == |calls|
    ensures var (m, os) := MapHistory(map[], calls);
            && AsMap(storage.contents) == m && |os| == |calls|
            && forall k :: 0 <= k < |calls| ==> Encodes(responses[k], os[k])
    ensures storage.size <= storage.capacity && PowerOfTwo(storage.capacity) && storage.moved == storage.capacity - 2
    ensures var n := Creations(calls, responses); n > 0 ==> storage.moved < 2 * n
  {
    storage := new Storage();
    assert AsMap([]) == map[];
    StoreRefinesMap([], calls);
    responses := PerformAll(storage, calls);
  }

  /**
    The interface documents 0 for a successful get, but the server answers with
    the slot: 0 is returned exactly for the vector in the first slot.
  */
  lemma GetReturnsItsSlot(c: seq<Entry>, name: string, i: int)
    requires DistinctNames(c) && MapCall(AsMap(c), Get(name, i)).1.Value?
    ensures CallOn(c, Get(name, i)).1.output == 0 <==> c[0].name == name
    ensures 0 <= CallOn(c, Get(name, i)).1.output < |c|
  {
    InMap(c, name);
  }

  /** A get of the second vector succeeds with 1. */
  lemma GetMayReturnOne()
    ensures var c := History([], [Init("a", 1), Init("b", 1)]).0;
            CallOn(c, Get("b", 0)).1 == Response(1, Some(0))
  {
    var c := [Entry("a", Zeros(1)), Entry("b", Zeros(1))];
    assert History([], [Init("a", 1), Init("b", 1)]).0 == c by {
      assert [Init("a", 1), Init("b", 1)][1..] == [Init("b", 1)];
      assert [Init("b", 1)][1..] == [];
      assert [] + [Entry("a", Zeros(1))] == [Entry("a", Zeros(1))];
      FirstIs(c[..1], "a", 0);
      assert IndexOf(c[..1], "b") == -1;
      assert [Entry("a", Zeros(1))] + [Entry("b", Zeros(1))] == c;
      assert c[..1] == [Entry("a", Zeros(1))];
    }
    FirstIs(c, "b", 1);
  }
}
