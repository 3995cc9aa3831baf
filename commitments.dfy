/** The commitment record and the three list effects the screen applies to
    its local copy of the server's list: append (`[...commitments, r]`),
    replace by id (`map`) and remove by id (`filter`). */
module Commitments {

  /** The server-assigned identifier, opaque to the client. */
  type Id = string

  datatype Commitment = Commitment(
    id: Id,
    titulo: string,
    anotacoes: string,
    dia: string,
    hora: string,
    status: string)

  predicate HasId(cs: seq<Commitment>, id: Id) {
    exists i :: 0 <= i < |cs| && cs[i].id == id
  }

  /** No two entries share an id. */
  predicate UniqueIds(cs: seq<Commitment>) {
    forall i, j :: 0 <= i < j < |cs| ==> cs[i].id != cs[j].id
  }

  /** The number of entries with the given id. */
  function CountId(cs: seq<Commitment>, id: Id): nat {
    if cs == [] then 0 else (if cs[0].id == id then 1 else 0) + CountId(cs[1..], id)
  }

  /** `a` keeps a selection of the entries of `b`, in their order in `b`. */
  ghost predicate IsSubsequence<T>(a: seq<T>, b: seq<T>)
    decreases |b|
  {
    if b == [] then a == []
    else (a != [] && a[0] == b[0] && IsSubsequence(a[1..], b[1..])) || IsSubsequence(a, b[1..])
  }

  /** `cs.map(c => c.id === id ? r : c)`. */
  function ReplaceById(cs: seq<Commitment>, id: Id, r: Commitment): (out: seq<Commitment>)
    ensures |out| == |cs|
    ensures forall i :: 0 <= i < |cs| && cs[i].id == id ==> out[i] == r
    ensures forall i :: 0 <= i < |cs| && cs[i].id != id ==> out[i] == cs[i]
  {
    if cs == [] then []
    else [if cs[0].id == id then r else cs[0]] + ReplaceById(cs[1..], id, r)
  }

  /** `cs.filter(c => c.id !== id)`. */
  function RemoveById(cs: seq<Commitment>, id: Id): (out: seq<Commitment>)
    ensures |out| == |cs| - CountId(cs, id)
    ensures forall c :: c in out ==> c in cs && c.id != id
    ensures forall c :: c in cs && c.id != id ==> c in out
    ensures IsSubsequence(out, cs)
  {
    if cs == [] then []
    else if cs[0].id == id then
      RemoveById(cs[1..], id)
    else
      var rest := RemoveById(cs[1..], id);
      assert ([cs[0]] + rest)[1..] == rest;
      [cs[0]] + rest
  }

  /** Removing by id works piece by piece, so the kept entries stay in order
      across any split of the list. */
  lemma {:induction false} RemoveByIdConcat(a: seq<Commitment>, b: seq<Commitment>, id: Id)
    ensures RemoveById(a + b, id) == RemoveById(a, id) + RemoveById(b, id)
    decreases |a|
  {
    if a != [] {
      assert (a + b)[1..] == a[1..] + b;
      RemoveByIdConcat(a[1..], b, id);
    } else {
      assert a + b == b;
    }
  }

  /** Removing an id nobody has changes nothing. */
  lemma {:induction false} RemoveByIdAbsent(cs: seq<Commitment>, id: Id)
    requires !HasId(cs, id)
    ensures RemoveById(cs, id) == cs
    decreases |cs|
  {
    if cs != [] {
      assert cs[0].id != id;
      forall i | 0 <= i < |cs[1..]| ensures cs[1..][i].id != id {
        assert cs[1..][i] == cs[i + 1];
      }
      RemoveByIdAbsent(cs[1..], id);
      assert cs == [cs[0]] + cs[1..];
    }
  }

  /** A list with unique ids holds an id at most once, and exactly once when
      the id is present. */
  lemma {:induction false} CountIdUnique(cs: seq<Commitment>, id: Id)
    requires UniqueIds(cs)
    ensures CountId(cs, id) == if HasId(cs, id) then 1 else 0
    decreases |cs|
  {
    if cs != [] {
      UniqueTail(cs);
      CountIdUnique(cs[1..], id);
      if cs[0].id != id {
        assert HasId(cs, id) <==> HasId(cs[1..], id) by {
          if HasId(cs, id) {
            var i :| 0 <= i < |cs| && cs[i].id == id;
            assert cs[1..][i - 1].id == id;
          }
          if HasId(cs[1..], id) {
            var i :| 0 <= i < |cs[1..]| && cs[1..][i].id == id;
            assert cs[i + 1].id == id;
          }
        }
      }
    }
  }

  /** With unique ids, deleting a present id removes exactly one entry. */
  lemma RemoveByIdRemovesOne(cs: seq<Commitment>, id: Id)
    requires UniqueIds(cs) && HasId(cs, id)
    ensures |RemoveById(cs, id)| == |cs| - 1
    ensures !HasId(RemoveById(cs, id), id)
  {
    CountIdUnique(cs, id);
  }

  /** Appending a record whose id is new keeps ids unique. */
  lemma AppendKeepsUnique(cs: seq<Commitment>, r: Commitment)
    requires UniqueIds(cs) && !HasId(cs, r.id)
    ensures UniqueIds(cs + [r])
  {
    forall i, j | 0 <= i < j < |cs + [r]| ensures (cs + [r])[i].id != (cs + [r])[j].id {
      if j == |cs| {
        assert (cs + [r])[i] == cs[i];
      }
    }
  }

  /** Replacing the entry of `id` by a record with the same id keeps ids
      unique and keeps the set of ids. */
  lemma ReplaceKeepsUnique(cs: seq<Commitment>, id: Id, r: Commitment)
    requires UniqueIds(cs) && r.id == id
    ensures UniqueIds(ReplaceById(cs, id, r))
    ensures forall k :: HasId(ReplaceById(cs, id, r), k) <==> HasId(cs, k)
  {
    var out := ReplaceById(cs, id, r);
    assert forall i :: 0 <= i < |cs| ==> out[i].id == cs[i].id;
  }

  /** Replacing an id nobody has changes nothing. */
  lemma ReplaceByIdAbsent(cs: seq<Commitment>, id: Id, r: Commitment)
    requires !HasId(cs, id)
    ensures ReplaceById(cs, id, r) == cs
  {
  }

  /** The tail of a list with unique ids has unique ids and does not hold
      the head's id. */
  lemma UniqueTail(cs: seq<Commitment>)
    requires UniqueIds(cs) && cs != []
    ensures UniqueIds(cs[1..]) && !HasId(cs[1..], cs[0].id)
  {
    forall i, j | 0 <= i < j < |cs[1..]| ensures cs[1..][i].id != cs[1..][j].id {
      assert cs[1..][i] == cs[i + 1] && cs[1..][j] == cs[j + 1];
    }
  }

  /** Putting a record with a new id in front keeps ids unique. */
  lemma UniqueCons(c: Commitment, rest: seq<Commitment>)
    requires UniqueIds(rest) && !HasId(rest, c.id)
    ensures UniqueIds([c] + rest)
  {
    var out := [c] + rest;
    forall i, j | 0 <= i < j < |out| ensures out[i].id != out[j].id {
      assert out[j] == rest[j - 1];
      if i > 0 {
        assert out[i] == rest[i - 1];
      }
    }
  }

  /** Removing by id keeps ids unique. */
  lemma {:induction false} RemoveKeepsUnique(cs: seq<Commitment>, id: Id)
    requires UniqueIds(cs)
    ensures UniqueIds(RemoveById(cs, id))
    decreases |cs|
  {
    if cs != [] {
      UniqueTail(cs);
      RemoveKeepsUnique(cs[1..], id);
      if cs[0].id != id {
        var rest := RemoveById(cs[1..], id);
        UniqueCons(cs[0], rest);
      }
    }
  }
}
