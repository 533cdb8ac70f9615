/**
 Keys as edges of a graph, the same in chm.c and bmz.c.
 */
module KeyEdges {
  import opened Words
  import opened Graphs
  import opened Hashing

  /** The edge of a key in CHM and BMZ. Equal ends are moved apart, if there is more than one vertex. */
  function EdgeOf(hp: HashPair, n: nat): (t: Edge)
    requires n >= 1
    ensures t.a < n && t.b < n && (t.a == t.b <==> n == 1)
  {
    var h1, h2 := Mod(hp.h1, n), Mod(hp.h2, n);
    if h1 == h2 then Edge(h1, if h2 + 1 >= n then 0 else h2 + 1) else Edge(h1, h2)
  }

  /** The remainders of the hash values are the ends; of two equal ones, the second moves on by one, around the end. */
  lemma EdgeOfMeans(hp: HashPair, n: nat)
    requires n >= 1
    ensures EdgeOf(hp, n).a == hp.h1 % n
    ensures EdgeOf(hp, n).b == if hp.h1 % n != hp.h2 % n then hp.h2 % n else (hp.h1 + 1) % n
  {
    ModIsRemainder(hp.h1, n);
    ModIsRemainder(hp.h2, n);
    StepRemainder(hp.h1, n);
  }

  lemma StepRemainder(x: nat, n: nat)
    requires n >= 1
    ensures (x + 1) % n == if x % n + 1 >= n then 0 else x % n + 1
  {
    var q, r := x / n, x % n;
    assert x == q * n + r;
    if r + 1 >= n {
      assert x + 1 == (q + 1) * n + 0;
      DivModUnique(x + 1, n, q + 1, 0);
    } else {
      DivModUnique(x + 1, n, q, r + 1);
    }
  }

  function Ends<Key>(hash: HashPairs<Key>, seed: nat, keys: seq<Key>, n: nat): (ends: seq<Edge>)
    requires n >= 1
    ensures |ends| == |keys| && (n >= 2 ==> EdgesOk(ends, n))
  {
    var ends := seq(|keys|, i requires 0 <= i < |keys| => EdgeOf(hash(seed, keys[i]), n));
    assert forall i :: 0 <= i < |ends| ==> ends[i] == EdgeOf(hash(seed, keys[i]), n);
    ends
  }

  /** Every key has the edge of its own hash values. */
  lemma EndsMean<Key>(hash: HashPairs<Key>, seed: nat, keys: seq<Key>, n: nat, i: nat)
    requires n >= 1 && i < |keys|
    ensures var hp, t := hash(seed, keys[i]), Ends(hash, seed, keys, n)[i];
            t.a == hp.h1 % n && t.b == if hp.h1 % n != hp.h2 % n then hp.h2 % n else (hp.h1 + 1) % n
  {
    EdgeOfMeans(hash(seed, keys[i]), n);
  }
}
