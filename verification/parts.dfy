/** A message part (a header list and a body) and the header map the
    decoder builds: a PHP array keyed by lower-cased header name, ordered by
    first insertion, where a later assignment to a key overwrites the
    earlier value. */
module Parts {
  import opened Wrappers
  import opened Text

  datatype Header = Header(name: string, value: string)

  datatype Part = Part(headers: seq<Header>, body: string)

  function Names(hs: seq<Header>): (r: seq<string>)
    ensures |r| == |hs|
    ensures forall i :: 0 <= i < |hs| ==> r[i] == hs[i].name
  {
    if hs == [] then [] else [hs[0].name] + Names(hs[1..])
  }

  predicate UniqueNames(hs: seq<Header>) {
    forall i, j :: 0 <= i < j < |hs| ==> hs[i].name != hs[j].name
  }

  /** `$headers[$k]`, or `None` when the key is not set. */
  function Lookup(hs: seq<Header>, k: string): Option<string> {
    if hs == [] then None
    else if hs[0].name == k then Some(hs[0].value)
    else Lookup(hs[1..], k)
  }

  /** In a map with each key once, the entry at `i` is what its key looks
      up. */
  lemma {:induction false} LookupAt(hs: seq<Header>, i: nat)
    requires UniqueNames(hs) && i < |hs|
    ensures Lookup(hs, hs[i].name) == Some(hs[i].value)
  {
    if i > 0 {
      assert hs[0].name != hs[i].name;
      assert UniqueNames(hs[1..]) by {
        forall a, b | 0 <= a < b < |hs[1..]| ensures hs[1..][a].name != hs[1..][b].name {
          assert hs[1..][a] == hs[a + 1] && hs[1..][b] == hs[b + 1];
        }
      }
      assert hs[1..][i - 1] == hs[i];
      LookupAt(hs[1..], i - 1);
    }
  }

  /** `$headers[$k] = $v`: an existing key keeps its position and takes the
      new value; a new key is appended. */
  function Put(hs: seq<Header>, k: string, v: string): seq<Header> {
    if hs == [] then [Header(k, v)]
    else if hs[0].name == k then [Header(k, v)] + hs[1..]
    else [hs[0]] + Put(hs[1..], k, v)
  }

  /** After the assignment the key maps to the new value, every other key is
      untouched, and the key order is the old one, the new key last if it
      was not there before. */
  lemma {:induction false} PutSpec(hs: seq<Header>, k: string, v: string)
    ensures Lookup(Put(hs, k, v), k) == Some(v)
    ensures forall k' :: k' != k ==> Lookup(Put(hs, k, v), k') == Lookup(hs, k')
    ensures Names(Put(hs, k, v)) == if k in Names(hs) then Names(hs) else Names(hs) + [k]
  {
    if hs != [] {
      assert Names(hs) == [hs[0].name] + Names(hs[1..]);
      if hs[0].name != k {
        PutSpec(hs[1..], k, v);
        var r := Put(hs, k, v);
        assert r[1..] == Put(hs[1..], k, v);
        assert Names(r) == [hs[0].name] + Names(r[1..]);
      } else {
        var r := Put(hs, k, v);
        assert Names(r) == [k] + Names(hs[1..]);
      }
    }
  }

  lemma PutKeepsUnique(hs: seq<Header>, k: string, v: string)
    requires UniqueNames(hs)
    ensures UniqueNames(Put(hs, k, v))
  {
    PutSpec(hs, k, v);
    var r := Put(hs, k, v);
    forall i, j | 0 <= i < j < |r| ensures r[i].name != r[j].name {
      assert Names(r)[i] == r[i].name && Names(r)[j] == r[j].name;
      if j < |hs| {
        assert Names(hs)[i] == hs[i].name && Names(hs)[j] == hs[j].name;
      } else {
        assert Names(hs)[i] == hs[i].name;
      }
    }
  }

  lemma PutFresh(hs: seq<Header>, k: string, v: string)
    requires k !in Names(hs)
    ensures Put(hs, k, v) == hs + [Header(k, v)]
  {
    if hs != [] {
      assert Names(hs) == [hs[0].name] + Names(hs[1..]);
      PutFresh(hs[1..], k, v);
    }
  }

  /** Every name is already lower-cased. */
  predicate LowerNames(hs: seq<Header>) {
    forall i :: 0 <= i < |hs| ==> Lower(hs[i].name) == hs[i].name
  }

  /** Assigning under a lower-cased key keeps every name lower-cased. */
  lemma {:induction false} PutKeepsLower(hs: seq<Header>, k: string, v: string)
    requires LowerNames(hs) && Lower(k) == k
    ensures LowerNames(Put(hs, k, v))
  {
    if hs != [] && hs[0].name != k {
      PutKeepsLower(hs[1..], k, v);
      var r := Put(hs, k, v);
      assert r == [hs[0]] + Put(hs[1..], k, v);
      forall i | 0 <= i < |r| ensures Lower(r[i].name) == r[i].name {
        if i > 0 {
          assert r[i] == Put(hs[1..], k, v)[i - 1];
        }
      }
    }
  }

  lemma LowerTwice(s: string)
    ensures Lower(Lower(s)) == Lower(s)
  {
  }

  /** Normalizing into a lower-cased map gives a lower-cased map. */
  lemma {:induction false} NormalizeLower(acc: seq<Header>, hs: seq<Header>)
    requires LowerNames(acc)
    ensures LowerNames(Normalize(acc, hs))
    decreases |hs|
  {
    if hs != [] {
      LowerTwice(hs[0].name);
      PutKeepsLower(acc, Lower(hs[0].name), hs[0].value);
      NormalizeLower(Put(acc, Lower(hs[0].name), hs[0].value), hs[1..]);
    }
  }

  function LowerHeader(h: Header): Header {
    Header(Lower(h.name), h.value)
  }

  /** The headers of `hs` with their names lower-cased, order and duplicates
      kept. */
  function LowerAll(hs: seq<Header>): (r: seq<Header>)
    ensures |r| == |hs|
  {
    if hs == [] then [] else [LowerHeader(hs[0])] + LowerAll(hs[1..])
  }

  /** The header map obtained by assigning each header of `hs`, in order and
      under its lower-cased name, into `acc`. */
  function Normalize(acc: seq<Header>, hs: seq<Header>): seq<Header>
    decreases |hs|
  {
    if hs == [] then acc
    else Normalize(Put(acc, Lower(hs[0].name), hs[0].value), hs[1..])
  }

  /** Reference definition: the value of the LAST header of `hs` whose
      lower-cased name is `k`. */
  function LastValue(hs: seq<Header>, k: string): Option<string> {
    if hs == [] then None
    else
      match LastValue(hs[1..], k)
      case Some(v) => Some(v)
      case None => if Lower(hs[0].name) == k then Some(hs[0].value) else None
  }

  /** A later duplicate overwrites the earlier value: looking a key up in the
      normalized map gives the last value assigned to it, or what `acc` held
      when no header of `hs` has that key. */
  lemma {:induction false} NormalizeLastWins(acc: seq<Header>, hs: seq<Header>, k: string)
    ensures Lookup(Normalize(acc, hs), k) ==
      match LastValue(hs, k)
      case Some(v) => Some(v)
      case None => Lookup(acc, k)
    decreases |hs|
  {
    if hs != [] {
      PutSpec(acc, Lower(hs[0].name), hs[0].value);
      NormalizeLastWins(Put(acc, Lower(hs[0].name), hs[0].value), hs[1..], k);
    }
  }

  /** The normalized map has each key once. */
  lemma {:induction false} NormalizeUnique(acc: seq<Header>, hs: seq<Header>)
    requires UniqueNames(acc)
    ensures UniqueNames(Normalize(acc, hs))
    decreases |hs|
  {
    if hs != [] {
      PutKeepsUnique(acc, Lower(hs[0].name), hs[0].value);
      NormalizeUnique(Put(acc, Lower(hs[0].name), hs[0].value), hs[1..]);
    }
  }

  /** When no two headers share a lower-cased name, normalizing only
      lower-cases the names and keeps the order. */
  lemma FirstNameFresh(acc: seq<Header>, rest: seq<Header>)
    requires |rest| > 0 && UniqueNames(acc + rest)
    ensures rest[0].name !in Names(acc)
  {
    var all := acc + rest;
    forall i | 0 <= i < |acc| ensures Names(acc)[i] != rest[0].name {
      assert all[i] == acc[i] && all[|acc|] == rest[0];
    }
  }

  lemma {:induction false} NormalizeDistinct(acc: seq<Header>, hs: seq<Header>)
    requires UniqueNames(acc + LowerAll(hs))
    ensures Normalize(acc, hs) == acc + LowerAll(hs)
    decreases |hs|
  {
    if hs != [] {
      var h := LowerHeader(hs[0]);
      var acc' := acc + [h];
      assert Put(acc, h.name, h.value) == acc' by {
        FirstNameFresh(acc, LowerAll(hs));
        PutFresh(acc, h.name, h.value);
      }
      assert acc' + LowerAll(hs[1..]) == acc + LowerAll(hs) by {
        assert LowerAll(hs) == [h] + LowerAll(hs[1..]);
      }
      assert Normalize(acc, hs) == Normalize(acc', hs[1..]);
      NormalizeDistinct(acc', hs[1..]);
    }
  }
}
