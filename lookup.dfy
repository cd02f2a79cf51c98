/** The meaning of looking a vertex up by its id.

    The mesh scans its vertex list from front to back and overwrites its
    answer on every vertex whose id matches, so the answer is the LAST
    matching vertex in list order, or null when none matches. `LastWithId`
    states that answer on values; the lemmas below say what it means and
    relate it to an id-to-index table, the form the lookup takes when it is
    kept as a map. */
module VertexLookup {
  import opened Entities

  /** The last vertex of `vs` whose id is `id`, or `None` when there is none. */
  function LastWithId(vs: seq<Vertex>, id: nat): Option<Vertex>
  {
    if vs == [] then None
    else if vs[|vs| - 1].id == id then Some(vs[|vs| - 1])
    else LastWithId(vs[..|vs| - 1], id)
  }

  /** True when no two vertices of `vs` share an id. */
  predicate UniqueIds(vs: seq<Vertex>)
  {
    forall i, j :: 0 <= i < j < |vs| ==> vs[i].id != vs[j].id
  }

  /** The lookup finds nothing exactly when no vertex carries the id. */
  lemma {:induction false} LastWithIdNoneIff(vs: seq<Vertex>, id: nat)
    ensures LastWithId(vs, id).None? <==> forall k :: 0 <= k < |vs| ==> vs[k].id != id
  {
    if vs != [] && vs[|vs| - 1].id != id {
      var p := vs[..|vs| - 1];
      LastWithIdNoneIff(p, id);
      assert forall k :: 0 <= k < |p| ==> p[k] == vs[k];
    }
  }

  /** A vertex the lookup finds carries the id, sits at some position of the
      list, and no vertex after that position carries the id: the last
      match wins. */
  lemma {:induction false} LastWithIdSome(vs: seq<Vertex>, id: nat)
    requires LastWithId(vs, id).Some?
    ensures LastWithId(vs, id).value.id == id
    ensures exists k :: 0 <= k < |vs| && vs[k] == LastWithId(vs, id).value &&
                        forall j :: k < j < |vs| ==> vs[j].id != id
  {
    var n := |vs| - 1;
    if vs[n].id == id {
      assert vs[n] == LastWithId(vs, id).value;
    } else {
      var p := vs[..n];
      LastWithIdSome(p, id);
      var k :| 0 <= k < |p| && p[k] == LastWithId(p, id).value &&
               forall j :: k < j < |p| ==> p[j].id != id;
      assert vs[k] == LastWithId(vs, id).value;
      assert forall j :: k < j < |vs| ==> vs[j].id != id by {
        forall j | k < j < |vs| ensures vs[j].id != id {
          if j < n { assert vs[j] == p[j]; }
        }
      }
    }
  }

  /** Appending a vertex makes it the answer for its own id and leaves the
      answer for every other id as it was. */
  lemma {:induction false} LastWithIdAppend(vs: seq<Vertex>, v: Vertex, id: nat)
    ensures LastWithId(vs + [v], id) == if v.id == id then Some(v) else LastWithId(vs, id)
  {
    assert (vs + [v])[..|vs|] == vs;
  }

  /** When ids are unique, looking up the id of any vertex of the list finds
      exactly that vertex. */
  lemma {:induction false} LastWithIdUnique(vs: seq<Vertex>, k: nat)
    requires UniqueIds(vs)
    requires k < |vs|
    ensures LastWithId(vs, vs[k].id) == Some(vs[k])
  {
    var id := vs[k].id;
    LastWithIdNoneIff(vs, id);
    LastWithIdSome(vs, id);
    var m :| 0 <= m < |vs| && vs[m] == LastWithId(vs, id).value &&
             forall j :: m < j < |vs| ==> vs[j].id != id;
    assert vs[m].id == id;
    assert m == k;
  }

  /** The table from each id to the position of its last vertex in `vs`,
      built by writing every vertex's position under its id in list order. */
  function LastIndexMap(vs: seq<Vertex>): map<nat, nat>
  {
    if vs == [] then map[]
    else LastIndexMap(vs[..|vs| - 1])[vs[|vs| - 1].id := |vs| - 1]
  }

  /** The table holds an entry for exactly the ids present in `vs`, each
      entry is a position of `vs` holding a vertex with that id, and reading
      through the table gives the same answer as the scan. */
  lemma {:induction false} LastIndexMapAgrees(vs: seq<Vertex>, id: nat)
    ensures var m := LastIndexMap(vs);
            (id in m <==> exists k :: 0 <= k < |vs| && vs[k].id == id) &&
            (id in m ==> m[id] < |vs| && vs[m[id]].id == id) &&
            LastWithId(vs, id) == (if id in m then Some(vs[m[id]]) else None)
  {
    if vs != [] {
      var n := |vs| - 1;
      var p := vs[..n];
      LastIndexMapAgrees(p, id);
      var mp := LastIndexMap(p);
      if vs[n].id != id {
        assert forall k :: 0 <= k < |p| ==> p[k] == vs[k];
        if id in mp {
          assert vs[mp[id]] == p[mp[id]];
        } else {
          assert forall k :: 0 <= k < |vs| ==> vs[k].id != id by {
            forall k | 0 <= k < |vs| ensures vs[k].id != id {
              if k < n { assert vs[k] == p[k]; }
            }
          }
        }
      }
    }
  }
}
