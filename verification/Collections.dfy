// What the other modules share about sequences, strings and sets.
module Collections {

  predicate NoDuplicates<T(==)>(s: seq<T>) {
    forall i, j :: 0 <= i < j < |s| ==> s[i] != s[j]
  }

  lemma {:induction false} Regroup<T>(a: seq<T>, b: seq<T>, c: seq<T>)
    ensures (a + b) + c == a + (b + c)
  {
  }

  lemma {:induction false} NilFirst<T>(s: seq<T>)
    ensures [] + s == s
  {
  }

  lemma {:induction false} Uncons<T>(s: seq<T>, t: seq<T>)
    requires s != []
    ensures s + t == [s[0]] + (s[1..] + t)
  {
  }

  lemma {:induction false} Recons<T>(s: seq<T>, t: seq<T>)
    requires t != []
    ensures (s + [t[0]]) + t[1..] == s + t
  {
  }

  lemma {:induction false} HeadOrTail<T>(s: seq<T>)
    requires s != []
    ensures forall x :: x in s <==> x == s[0] || x in s[1..]
  {
    assert s == [s[0]] + s[1..];
  }

  lemma {:induction false} SubsetIsSmaller<T>(s: set<T>, t: set<T>)
    requires s <= t
    ensures |s| <= |t|
    ensures |s| == |t| ==> s == t
    decreases s
  {
    if x :| x in s {
      SubsetIsSmaller(s - {x}, t - {x});
    }
  }

  /** The characters from `lo` up to `hi`. */
  function Slice(s: string, lo: nat, hi: nat): (t: string)
    requires lo <= hi <= |s|
    ensures |t| == hi - lo
    decreases hi - lo
  {
    if lo == hi then "" else [s[lo]] + Slice(s, lo + 1, hi)
  }

  /** `t` stands in `s` at position `lo`. */
  predicate Embeds(t: string, s: string, lo: nat) {
    lo + |t| <= |s| && forall j {:trigger s[j]} :: lo <= j < lo + |t| ==> s[j] == t[j - lo]
  }

  lemma {:induction false} SliceEmbeds(t: string, s: string, lo: nat, a: nat, b: nat)
    requires Embeds(t, s, lo) && a <= b <= |t|
    ensures Slice(t, a, b) == Slice(s, lo + a, lo + b)
    decreases b - a
  {
    if a < b {
      assert s[lo + a] == t[a];
      SliceEmbeds(t, s, lo, a + 1, b);
    }
  }
}
