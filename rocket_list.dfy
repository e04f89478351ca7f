/** The entries of the favorites list, and the three array operations the store
    applies to its list (`some`, `find` and `filter`, each keyed on the entry
    id), written as functions on sequences together with what they promise. */
module RocketList {

  datatype Option<T> = None | Some(value: T)

  /** A favorite entry: an id, a display name and an optional description. */
  datatype Rocket = Rocket(id: string, name: string, description: Option<string>)

  /** The set of ids held by a list of entries. */
  ghost function Ids(s: seq<Rocket>): set<string>
  {
    set i | 0 <= i < |s| :: s[i].id
  }

  /** No two entries of the list share an id. */
  ghost predicate UniqueIds(s: seq<Rocket>)
  {
    forall i, j :: 0 <= i < j < |s| ==> s[i].id != s[j].id
  }

  /** `s.some(r => r.id === id)`: some entry carries the id. */
  function SomeHasId(s: seq<Rocket>, id: string): (b: bool)
    ensures b <==> exists i :: 0 <= i < |s| && s[i].id == id
  {
    if s == [] then false
    else if s[0].id == id then true
    else
      var b' := SomeHasId(s[1..], id);
      assert forall i :: 0 < i < |s| ==> s[i] == s[1..][i - 1];
      b'
  }

  /** `s.find(r => r.id === id)`: the first entry carrying the id, if any. */
  function FindById(s: seq<Rocket>, id: string): (r: Option<Rocket>)
    ensures r.None? <==> forall i :: 0 <= i < |s| ==> s[i].id != id
    ensures r.Some? ==> exists k :: 0 <= k < |s| && s[k] == r.value && r.value.id == id &&
                                    forall j :: 0 <= j < k ==> s[j].id != id
  {
    if s == [] then None
    else if s[0].id == id then Some(s[0])
    else
      var r' := FindById(s[1..], id);
      assert forall i :: 0 < i < |s| ==> s[i] == s[1..][i - 1];
      r'
  }

  /** `s.filter(r => r.id !== id)`: the entries not carrying the id. */
  function WithoutId(s: seq<Rocket>, id: string): (t: seq<Rocket>)
    ensures |t| <= |s|
    ensures forall r :: r in t <==> r in s && r.id != id
  {
    if s == [] then []
    else if s[0].id != id then [s[0]] + WithoutId(s[1..], id)
    else WithoutId(s[1..], id)
  }

  /** Filtering keeps relative order: it distributes over concatenation. */
  lemma {:induction false} WithoutIdAppend(a: seq<Rocket>, b: seq<Rocket>, id: string)
    ensures WithoutId(a + b, id) == WithoutId(a, id) + WithoutId(b, id)
  {
    if a == [] {
      assert a + b == b;
    } else {
      assert (a + b)[1..] == a[1..] + b;
      WithoutIdAppend(a[1..], b, id);
    }
  }

  /** Filtering out an id no entry carries leaves the list as it was. */
  lemma {:induction false} WithoutIdAbsent(s: seq<Rocket>, id: string)
    requires forall i :: 0 <= i < |s| ==> s[i].id != id
    ensures WithoutId(s, id) == s
  {
    if s != [] {
      WithoutIdAbsent(s[1..], id);
      assert [s[0]] + s[1..] == s;
    }
  }

  /** With unique ids, filtering out the id of entry k removes that one entry
      and keeps every other entry in its place in the order. */
  lemma WithoutIdAt(s: seq<Rocket>, k: nat, id: string)
    requires UniqueIds(s)
    requires k < |s| && s[k].id == id
    ensures WithoutId(s, id) == s[..k] + s[k + 1..]
  {
    assert s == s[..k] + ([s[k]] + s[k + 1..]);
    WithoutIdAppend(s[..k], [s[k]] + s[k + 1..], id);
    WithoutIdAppend([s[k]], s[k + 1..], id);
    WithoutIdAbsent(s[..k], id);
    var after := s[k + 1..];
    forall i | 0 <= i < |after| ensures after[i].id != id {
      assert after[i] == s[k + 1 + i];
    }
    WithoutIdAbsent(s[k + 1..], id);
    assert [s[k]][1..] == [];
  }

  /** Filtering twice by the same id is filtering once. */
  lemma WithoutIdIdempotent(s: seq<Rocket>, id: string)
    ensures WithoutId(WithoutId(s, id), id) == WithoutId(s, id)
  {
  }

  /** Filtering keeps ids unique. */
  lemma {:induction false} WithoutIdKeepsUnique(s: seq<Rocket>, id: string)
    requires UniqueIds(s)
    ensures UniqueIds(WithoutId(s, id))
  {
    if s != [] {
      var tail := s[1..];
      assert UniqueIds(tail) by {
        forall i, j | 0 <= i < j < |tail| ensures tail[i].id != tail[j].id {
          assert tail[i] == s[i + 1] && tail[j] == s[j + 1];
        }
      }
      WithoutIdKeepsUnique(tail, id);
      if s[0].id != id {
        var rest := WithoutId(tail, id);
        forall r | r in rest ensures r.id != s[0].id {
          assert r in tail;
          var j :| 0 <= j < |tail| && tail[j] == r;
          assert s[j + 1] == r;
        }
        PrependKeepsUnique(s[0], rest);
      }
    }
  }

  /** Putting an entry in front of a list that lacks its id keeps ids unique. */
  lemma PrependKeepsUnique(x: Rocket, t: seq<Rocket>)
    requires UniqueIds(t)
    requires forall r :: r in t ==> r.id != x.id
    ensures UniqueIds([x] + t)
  {
  }

  /** Appending an entry whose id is absent keeps ids unique. */
  lemma AppendKeepsUnique(s: seq<Rocket>, x: Rocket)
    requires UniqueIds(s)
    requires forall i :: 0 <= i < |s| ==> s[i].id != x.id
    ensures UniqueIds(s + [x])
  {
  }

  /** Appending an entry adds exactly its id to the ids held. */
  lemma IdsAppend(s: seq<Rocket>, x: Rocket)
    ensures Ids(s + [x]) == Ids(s) + {x.id}
  {
    var t := s + [x];
    forall y | y in Ids(t) ensures y in Ids(s) + {x.id} {
      var i :| 0 <= i < |t| && t[i].id == y;
      if i < |s| { assert t[i] == s[i]; }
    }
    forall y | y in Ids(s) ensures y in Ids(t) {
      var i :| 0 <= i < |s| && s[i].id == y;
      assert t[i] == s[i];
    }
    assert t[|s|] == x;
  }

  /** A list holds as many distinct ids as entries exactly when its ids are
      unique; a list never holds more distinct ids than entries. */
  lemma {:induction false} UniqueIdsCount(s: seq<Rocket>)
    ensures |Ids(s)| <= |s|
    ensures UniqueIds(s) <==> |Ids(s)| == |s|
  {
    if s != [] {
      var n := |s| - 1;
      var init := s[..n];
      UniqueIdsCount(init);
      assert Ids(s) == Ids(init) + {s[n].id} by {
        forall x | x in Ids(s) ensures x in Ids(init) + {s[n].id} {
          var i :| 0 <= i < |s| && s[i].id == x;
          if i < n { assert init[i] == s[i]; }
        }
        forall x | x in Ids(init) ensures x in Ids(s) {
          var i :| 0 <= i < |init| && init[i].id == x;
          assert s[i] == init[i];
        }
      }
      if UniqueIds(s) {
        assert UniqueIds(init) by {
          forall i, j | 0 <= i < j < |init| ensures init[i].id != init[j].id {
            assert init[i] == s[i] && init[j] == s[j];
          }
        }
        forall i | 0 <= i < |init| ensures init[i].id != s[n].id {
          assert init[i] == s[i];
        }
      } else {
        var i, j :| 0 <= i < j < |s| && s[i].id == s[j].id;
        assert init[i] == s[i];
        if j < n {
          assert init[j] == s[j];
          assert !UniqueIds(init);
        } else {
          assert s[n].id in Ids(init);
        }
      }
    }
  }
}
