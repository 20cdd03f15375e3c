/**
  The name-to-id registries of cyber/common/global_data.cc, which differ only in the map they use.
  Ids are 64-bit hashes of names; a collision takes the next id, around the top of the range.
  Registrations come one at a time.  The 64-bit hash is any function of the name, so that every
  statement holds for every choice of it, collisions of any number of names included.
*/
module IdRegistry {
  import opened Common
  import Modular

  /** The id that is tried after `k` collisions. */
  function Candidate(hash: string -> nat, name: string, k: nat): (id: nat)
    ensures id < TWO_64
  {
    (hash(name) + k) % TWO_64
  }

  lemma NextCandidate(hash: string -> nat, name: string, k: nat)
    ensures Candidate(hash, name, k + 1) == (Candidate(hash, name, k) + 1) % TWO_64
  {
  }

  /** Candidates repeat only after all ids. */
  lemma CandidatesDiffer(hash: string -> nat, name: string, j: nat, k: nat)
    requires j < k < j + TWO_64
    ensures Candidate(hash, name, j) != Candidate(hash, name, k)
  {
    Modular.RemaindersDiffer(hash(name) + j, hash(name) + k, TWO_64);
  }

  lemma CandidatesRepeat(hash: string -> nat, name: string, k: nat)
    ensures Candidate(hash, name, k) == Candidate(hash, name, k % TWO_64)
  {
    var q, r := k / TWO_64, k % TWO_64;
    assert hash(name) + k == (hash(name) + r) + q * TWO_64;
    Modular.ModShift(hash(name) + r, q, TWO_64);
  }

  /** The first `k` candidates of the name are taken by other names. */
  ghost predicate TakenByOthers(names: map<nat, string>, hash: string -> nat, name: string, k: nat) {
    forall j: nat {:trigger Candidate(hash, name, j)} :: j < k ==>
      Candidate(hash, name, j) in names && names[Candidate(hash, name, j)] != name
  }

  /** Registered names sit at the first of their candidates that no other name has. */
  ghost predicate Probed(names: map<nat, string>, hash: string -> nat) {
    && (forall id :: id in names ==> id < TWO_64)
    && (forall id :: id in names ==> exists k: nat ::
          id == Candidate(hash, names[id], k) && TakenByOthers(names, hash, names[id], k))
  }

  /** Two ids of one name would be two first free candidates. */
  lemma OneIdPerName(names: map<nat, string>, hash: string -> nat, a: nat, b: nat)
    requires Probed(names, hash) && a in names && b in names && names[a] == names[b]
    ensures a == b
  {
    var j: nat :| a == Candidate(hash, names[a], j) && TakenByOthers(names, hash, names[a], j);
    var k: nat :| b == Candidate(hash, names[b], k) && TakenByOthers(names, hash, names[b], k);
  }

  lemma {:induction false} CandidatesCount(names: map<nat, string>, hash: string -> nat, name: string, k: nat,
                                           found: set<nat>)
    requires k <= TWO_64 && TakenByOthers(names, hash, name, k)
    requires found == set j | 0 <= j < k :: Candidate(hash, name, j)
    ensures |found| == k && found <= names.Keys
  {
    if k > 0 {
      var last := Candidate(hash, name, k - 1);
      var rest := set j | 0 <= j < k - 1 :: Candidate(hash, name, j);
      CandidatesCount(names, hash, name, k - 1, rest);
      forall j: nat | j < k - 1 ensures Candidate(hash, name, j) != last {
        CandidatesDiffer(hash, name, j, k - 1);
      }
      assert found == rest + {last};
    }
  }

  /** As long as not all ids are taken, some candidate is free or holds the name. */
  lemma ProbingEnds(names: map<nat, string>, hash: string -> nat, name: string, k: nat)
    requires k <= TWO_64 && TakenByOthers(names, hash, name, k) && Probed(names, hash)
    requires |names| < TWO_64 || name in names.Values
    ensures k < TWO_64
  {
    if name in names.Values {
      var id :| id in names && names[id] == name;
      var j: nat :| id == Candidate(hash, name, j) && TakenByOthers(names, hash, name, j);
      CandidatesRepeat(hash, name, j);
      assert j % TWO_64 >= k;
      return;
    }
    var found := set j | 0 <= j < k :: Candidate(hash, name, j);
    CandidatesCount(names, hash, name, k, found);
    SubsetCount(found, names.Keys);
  }

  /**
    Behind the hash `h` of the name, around the top of the range, `id` is the first that is free or
    the name's own; so it is the hash itself if that is.
  */
  ghost predicate ProbedUpTo(names: map<nat, string>, h: nat, name: string, id: nat) {
    && (h % TWO_64 !in names || names[h % TWO_64] == name ==> id == h % TWO_64)
    && (id in names ==> names[id] == name)
    && exists k: nat {:trigger OthersBehind(names, h, name, k)} :: id == (h + k) % TWO_64 && OthersBehind(names, h, name, k)
  }

  /** The hash and the `k - 1` ids behind it are other names'. */
  ghost predicate OthersBehind(names: map<nat, string>, h: nat, name: string, k: nat) {
    forall x: nat {:trigger x % TWO_64} :: h <= x < h + k ==> x % TWO_64 in names && names[x % TWO_64] != name
  }

  lemma FirstFree(names: map<nat, string>, hash: string -> nat, name: string, k: nat)
    requires TakenByOthers(names, hash, name, k)
    requires var id := Candidate(hash, name, k); id in names ==> names[id] == name
    ensures ProbedUpTo(names, hash(name), name, Candidate(hash, name, k))
  {
    var h := hash(name);
    forall x: nat | h <= x < h + k ensures x % TWO_64 in names && names[x % TWO_64] != name {
      assert Candidate(hash, name, x - h) == x % TWO_64;
    }
    assert OthersBehind(names, h, name, k);
    assert k > 0 ==> Candidate(hash, name, 0) in names;
  }

  class Registry {
    const hash: string -> nat
    var names: map<nat, string>

    ghost predicate Valid()
      reads this
    {
      Probed(names, hash)
    }

    constructor (hash: string -> nat)
      ensures Valid() && names == map[] && this.hash == hash
    {
      this.hash := hash;
      names := map[];
    }

    /**
      `RegisterNode`, `RegisterChannel`, `RegisterService`, `RegisterTaskName`: a known name keeps
      its id, a new one gets an id that nobody has, and nothing else changes.
    */
    method Register(name: string) returns (id: nat)
      requires Valid() && (|names| < TWO_64 || name in names.Values)
      modifies this
      ensures Valid() && id < TWO_64 && names == old(names)[id := name]
      ensures id in old(names) ==> old(names)[id] == name
      ensures ProbedUpTo(old(names), hash(name), name, id)
      ensures name in old(names).Values ==> id in old(names)
    {
      id := hash(name) % TWO_64;
      ghost var k := 0;
      while id in names
        invariant names == old(names)
        invariant k < TWO_64 && id == Candidate(hash, name, k) && TakenByOthers(names, hash, name, k)
        decreases TWO_64 - k
      {
        if names[id] == name {
          break;
        }
        NextCandidate(hash, name, k);
        ProbingEnds(names, hash, name, k + 1);
        id := (id + 1) % TWO_64;
        k := k + 1;
      }
      RegisterKeepsProbed(names, hash, name, k);
      FirstFree(names, hash, name, k);
      names := names[id := name];
    }

    /** `GetNodeById` and its siblings; the empty string stands for an unknown id. */
    method GetById(id: nat) returns (name: string)
      ensures name == if id in names then names[id] else ""
    {
      if id in names {
        return names[id];
      }
      return "";
    }
  }

  /** The candidate at which probing stops. */
  lemma RegisterKeepsProbed(names: map<nat, string>, hash: string -> nat, name: string, k: nat)
    requires Probed(names, hash) && TakenByOthers(names, hash, name, k)
    requires var id := Candidate(hash, name, k); id in names ==> names[id] == name
    ensures var id := Candidate(hash, name, k);
      && Probed(names[id := name], hash)
      && (name in names.Values ==> id in names)
  {
    var id := Candidate(hash, name, k);
    if name in names.Values {
      var old' :| old' in names && names[old'] == name;
      var j: nat :| old' == Candidate(hash, name, j) && TakenByOthers(names, hash, name, j);
    }
    var names' := names[id := name];
    forall x | x in names'
      ensures exists j: nat :: x == Candidate(hash, names'[x], j) && TakenByOthers(names', hash, names'[x], j)
    {
      if x == id {
        assert TakenByOthers(names', hash, name, k);
      } else {
        var j: nat :| x == Candidate(hash, names[x], j) && TakenByOthers(names, hash, names[x], j);
        assert TakenByOthers(names', hash, names[x], j);
      }
    }
  }

  lemma OneMoreName(names: map<nat, string>, id: nat, name: string)
    ensures |names[id := name]| <= |names| + 1
  {
    assert names[id := name].Keys == names.Keys + {id};
  }

  /**
    Any sequence of registrations: equal names get equal ids, distinct names distinct ids, and in
    the end every id still looks up its name.
  */
  method RegisterAll(hash: string -> nat, list: seq<string>) returns (registry: Registry, ids: seq<nat>)
    requires |list| < TWO_64
    ensures |ids| == |list|
    ensures forall i, j :: 0 <= i < |list| && 0 <= j < |list| ==> (ids[i] == ids[j] <==> list[i] == list[j])
    ensures forall i :: 0 <= i < |list| ==> ids[i] in registry.names && registry.names[ids[i]] == list[i]
  {
    hide Probed;
    registry := new Registry(hash);
    ids := [];
    for n := 0 to |list|
      invariant fresh(registry) && registry.Valid() && registry.hash == hash && |registry.names| <= n
      invariant |ids| == n
      invariant forall i :: 0 <= i < n ==> ids[i] in registry.names && registry.names[ids[i]] == list[i]
    {
      ghost var before := registry.names;
      var id := registry.Register(list[n]);
      OneMoreName(before, id, list[n]);
      ids := ids + [id];
    }
    forall i, j | 0 <= i < |list| && 0 <= j < |list| ensures ids[i] == ids[j] <==> list[i] == list[j] {
      if list[i] == list[j] {
        OneIdPerName(registry.names, hash, ids[i], ids[j]);
      }
    }
  }
}
