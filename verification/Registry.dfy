/** The name registry of `cyber/common/global_data.cc`: ids by hashing, with linear probing past ids that
    other names hold. The four registries for nodes, channels, services and tasks are alike. One
    registration runs at a time. */
module Registry {

  /** Ids are 64-bit, and the probe wraps around. */
  const IDS := 0x1_0000_0000_0000_0000

  type Id = n: nat | n < IDS

  type Names = map<Id, string>

  /** The id looked at after k collisions. */
  function Probe(start: Id, k: nat): Id { (start + k) % IDS }

  /** The probe ends here: the id is free, or it already holds the name. */
  predicate Stops(names: Names, start: Id, name: string, k: nat) {
    var id := Probe(start, k);
    id !in names || names[id] == name
  }

  predicate Registered(names: Names, name: string) {
    exists id :: id in names && names[id] == name
  }

  ghost predicate HasFreeId(names: Names) {
    exists id: Id :: id !in names
  }

  /** One id per name, and every id between a name's hash and its own id is held by another name. */
  ghost predicate Sound(names: Names, hash: string -> Id) {
    && (forall i, j :: i in names && j in names && names[i] == names[j] ==> i == j)
    && (forall id :: id in names ==>
          forall k :: 0 <= k < Distance(hash(names[id]), id) ==> Probe(hash(names[id]), k) in names)
  }

  /** How many probes lead from one id to another. */
  function Distance(start: Id, id: Id): (d: nat)
    ensures d < IDS && Probe(start, d) == id
    ensures forall k :: 0 <= k < IDS && Probe(start, k) == id ==> k == d
  {
    (id - start) % IDS
  }

  /** The probe loop ends exactly when the name is registered or the map is not full. */
  lemma LoopEndsIffRoom(names: Names, hash: string -> Id, name: string)
    requires Sound(names, hash)
    ensures (exists k :: 0 <= k < IDS && Stops(names, hash(name), name, k)) <==>
      Registered(names, name) || HasFreeId(names)
  {
    var start := hash(name);
    if Registered(names, name) {
      var id :| id in names && names[id] == name;
      assert Stops(names, start, name, Distance(start, id));
    } else if HasFreeId(names) {
      var id: Id :| id !in names;
      assert Stops(names, start, name, Distance(start, id));
    }
  }

  lemma FirstStop(names: Names, hash: string -> Id, name: string) returns (end: nat)
    requires Sound(names, hash) && (Registered(names, name) || HasFreeId(names))
    ensures end < IDS && Stops(names, hash(name), name, end)
    ensures forall m :: 0 <= m < end ==> !Stops(names, hash(name), name, m)
  {
    LoopEndsIffRoom(names, hash, name);
    end :| 0 <= end < IDS && Stops(names, hash(name), name, end);
    end := LeastStop(names, hash(name), name, end);
  }

  lemma LeastStop(names: Names, start: Id, name: string, some: nat) returns (end: nat)
    requires Stops(names, start, name, some)
    ensures end <= some && Stops(names, start, name, end)
    ensures forall m :: 0 <= m < end ==> !Stops(names, start, name, m)
  {
    end := 0;
    while !Stops(names, start, name, end)
      invariant end <= some && forall m :: 0 <= m < end ==> !Stops(names, start, name, m)
      decreases some - end
    {
      end := end + 1;
    }
  }

  /** The ids from the hash to where the probe first stops are all held by other names. */
  lemma IdsBefore(names: Names, start: Id, name: string, end: nat)
    requires end < IDS && Stops(names, start, name, end)
    requires forall m :: 0 <= m < end ==> !Stops(names, start, name, m)
    ensures start !in names || names[start] == name ==> Probe(start, end) == start
    ensures forall i: Id :: Distance(start, i) < Distance(start, Probe(start, end)) ==> i in names && names[i] != name
  {
    assert Probe(start, 0) == start;
    assert Distance(start, Probe(start, end)) == end;
    if start !in names || names[start] == name {
      assert Stops(names, start, name, 0);
    }
    forall i: Id | Distance(start, i) < end ensures i in names && names[i] != name {
      assert !Stops(names, start, name, Distance(start, i));
    }
  }

  datatype Entry = Entry(name: string, id: Id)

  /** The log has exactly the pairs that are registered. */
  ghost predicate IsLogOf(log: seq<Entry>, names: Names) {
    && (forall i :: 0 <= i < |log| ==> log[i].id in names && names[log[i].id] == log[i].name)
    && (forall id :: id in names ==> Entry(names[id], id) in log)
  }

  lemma LogGrows(log: seq<Entry>, names: Names, name: string, id: Id)
    requires IsLogOf(log, names) && (id !in names || names[id] == name)
    ensures IsLogOf(log + [Entry(name, id)], names[id := name])
  {
    var log', names' := log + [Entry(name, id)], names[id := name];
    assert log'[|log|] == Entry(name, id);
    forall i | i in names' ensures Entry(names'[i], i) in log' {
      if i != id {
        assert Entry(names[i], i) in log;
      }
    }
  }

  class GlobalData {
    const hash: string -> Id
    var names: Names
    ghost var log: seq<Entry>  // every registration so far, with the id it returned

    ghost predicate Valid()
      reads this
    {
      Sound(names, hash) && IsLogOf(log, names)
    }

    constructor (hash: string -> Id)
      ensures Valid() && names == map[] && log == [] && this.hash == hash
    {
      this.hash, names, log := hash, map[], [];
    }

    /** The id of the name, the same at every registration and held by no other name. */
    method Register(name: string) returns (id: Id)
      requires Valid() && (Registered(names, name) || HasFreeId(names))
      modifies this
      ensures Valid() && names == old(names)[id := name] && log == old(log) + [Entry(name, id)]
      ensures id in old(names) ==> old(names)[id] == name
      ensures hash(name) !in old(names) || old(names)[hash(name)] == name ==> id == hash(name)
      ensures forall i: Id :: Distance(hash(name), i) < Distance(hash(name), id) ==>
        i in old(names) && old(names)[i] != name
      ensures Registered(old(names), name) ==> id in old(names) && names == old(names)
    {
      ghost var end := FirstStop(names, hash, name);
      id := ProbeLoop(name, end);
      StopKeepsSound(names, hash, name, end);
      IdsBefore(names, hash(name), name, end);
      LogGrows(log, names, name, id);
      names, log := names[id := name], log + [Entry(name, id)];
    }

    /** The loop of Register: it ends at the first id that is free or has the name. */
    method ProbeLoop(name: string, ghost end: nat) returns (id: Id)
      requires Stops(names, hash(name), name, end)
      requires forall m :: 0 <= m < end ==> !Stops(names, hash(name), name, m)
      ensures id == Probe(hash(name), end)
    {
      id := hash(name);
      ghost var k := 0;
      while id in names
        invariant k <= end && id == Probe(hash(name), k)
        decreases end - k
      {
        if names[id] == name {
          assert Stops(names, hash(name), name, k);
          break;
        }
        assert !Stops(names, hash(name), name, k);
        id := (id + 1) % IDS;
        k := k + 1;
      }
      assert Stops(names, hash(name), name, k);
    }

    /** Over any sequence of registrations: the same name always got the same id, different names never
        did, and the lookup by id still returns the name. */
    lemma IdsAreInjectiveAndStable()
      requires Valid()
      ensures forall i, j :: 0 <= i < |log| && 0 <= j < |log| ==>
        (log[i].name == log[j].name <==> log[i].id == log[j].id)
      ensures forall i :: 0 <= i < |log| ==> log[i].id in names && names[log[i].id] == log[i].name
    {
    }

    /** The name that some registration got this id for, or the empty string when none did. */
    method GetById(id: Id) returns (name: string)
      requires Valid()
      ensures forall i :: 0 <= i < |log| && log[i].id == id ==> name == log[i].name
      ensures (exists i :: 0 <= i < |log| && log[i] == Entry(name, id)) ||
              (name == "" && forall i :: 0 <= i < |log| ==> log[i].id != id)
    {
      if id in names {
        return names[id];
      }
      return "";
    }
  }

  /** Storing the name where the probe first stops keeps the registry sound. */
  lemma StopKeepsSound(names: Names, hash: string -> Id, name: string, k: nat)
    requires Sound(names, hash) && k < IDS && Stops(names, hash(name), name, k)
    requires forall m :: 0 <= m < k ==> !Stops(names, hash(name), name, m)
    ensures Sound(names[Probe(hash(name), k) := name], hash)
    ensures Registered(names, name) ==> Probe(hash(name), k) in names && names[Probe(hash(name), k)] == name
  {
    var start, id := hash(name), Probe(hash(name), k);
    var names' := names[id := name];
    if Registered(names, name) {
      var j :| j in names && names[j] == name;
      assert Stops(names, start, name, Distance(start, j));
      assert Distance(start, j) > k ==> Probe(start, k) in names;
    }
    assert Distance(start, id) == k;
    forall i | i in names'
      ensures forall m :: 0 <= m < Distance(hash(names'[i]), i) ==> Probe(hash(names'[i]), m) in names'
    {
      if i == id {
        forall m | 0 <= m < k ensures Probe(start, m) in names' {
          assert !Stops(names, start, name, m);
        }
      }
    }
  }
}
