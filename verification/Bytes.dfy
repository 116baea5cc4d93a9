/** Byte strings, and the two searches of std::string_view that the parsers use. */
module Bytes {
  import opened Wrappers

  type Byte = x: int | 0 <= x < 256
  type Text = seq<Byte>

  /** `p` stands in `t` at index `j`. */
  predicate OccursAt(t: Text, p: Text, j: int) {
    0 <= j && j + |p| <= |t| && t[j..j + |p|] == p
  }

  lemma OccursByte(t: Text, p: Text, j: nat, k: nat)
    requires k < |p|
    ensures OccursAt(t, p, j) ==> t[j + k] == p[k]
  {
    if OccursAt(t, p, j) {
      assert t[j..j + |p|][k] == t[j + k];
    }
  }

  ghost predicate Contains(t: Text, p: Text) {
    exists j :: OccursAt(t, p, j)
  }

  lemma NotInNothing(p: Text)
    requires p != []
    ensures !Contains([], p)
  {
  }

  lemma ContainsLeft(a: Text, b: Text, p: Text)
    ensures Contains(a, p) ==> Contains(a + b, p)
  {
    if Contains(a, p) {
      var j :| OccursAt(a, p, j);
      assert (a + b)[j..j + |p|] == a[j..j + |p|];
      assert OccursAt(a + b, p, j);
    }
  }

  lemma ContainsRight(a: Text, b: Text, p: Text)
    ensures Contains(b, p) ==> Contains(a + b, p)
  {
    if Contains(b, p) {
      var j :| OccursAt(b, p, j);
      assert (a + b)[|a| + j..|a| + j + |p|] == b[j..j + |p|];
      assert OccursAt(a + b, p, |a| + j);
    }
  }

  /** No occurrence starts in a text without the pattern's first byte. */
  lemma ContainsAfter(a: Text, b: Text, p: Text)
    requires p != [] && p[0] !in a
    ensures Contains(a + b, p) <==> Contains(b, p)
  {
    ContainsRight(a, b, p);
    assert forall i :: 0 <= i < |a| ==> (a + b)[i] == a[i];
    if Contains(a + b, p) {
      var j :| OccursAt(a + b, p, j);
      OccursByte(a + b, p, j, 0);
      assert b[j - |a|..j - |a| + |p|] == (a + b)[j..j + |p|];
      assert OccursAt(b, p, j - |a|);
    }
  }

  /** string_view::find(string_view): the first occurrence, None for npos. */
  function Find(t: Text, p: Text): (r: Option<nat>)
    ensures r.Some? ==> OccursAt(t, p, r.value) && forall j :: j < r.value ==> !OccursAt(t, p, j)
    ensures r.None? <==> !Contains(t, p)
  {
    FindFrom(t, p, 0)
  }

  function FindFrom(t: Text, p: Text, i: nat): (r: Option<nat>)
    ensures r.Some? ==> i <= r.value && OccursAt(t, p, r.value) && forall j :: i <= j < r.value ==> !OccursAt(t, p, j)
    ensures r.None? ==> forall j :: i <= j ==> !OccursAt(t, p, j)
    decreases |t| - i
  {
    if i + |p| > |t| then None
    else if t[i..i + |p|] == p then Some(i)
    else FindFrom(t, p, i + 1)
  }

  /** A pattern whose first byte does not recur in it shares no occurrence with the text in front of it. */
  lemma FirstOccurrence(done: Text, t: Text, p: Text)
    requires p != [] && p <= t && forall k :: 0 < k < |p| ==> p[k] != p[0]
    requires !Contains(done, p)
    ensures Find(done + t, p) == Some(|done|)
  {
    var all := done + t;
    forall j | 0 <= j < |done|
      ensures !OccursAt(all, p, j)
    {
      if j + |p| <= |done| {
        assert all[j..j + |p|] == done[j..j + |p|];
        assert !OccursAt(done, p, j);
      } else {
        OccursByte(all, p, j, |done| - j);
        assert all[|done|] == t[0] == p[0];
      }
    }
    assert all[|done|..|done| + |p|] == t[..|p|];
    assert OccursAt(all, p, |done|);
  }

  /** string_view::find(char). */
  function FindByte(t: Text, b: Byte): (r: Option<nat>)
    ensures r.Some? ==> r.value < |t| && t[r.value] == b && forall j :: 0 <= j < r.value ==> t[j] != b
    ensures r.None? <==> b !in t
  {
    FindByteFrom(t, b, 0)
  }

  function FindByteFrom(t: Text, b: Byte, i: nat): (r: Option<nat>)
    requires i <= |t|
    requires forall j :: 0 <= j < i ==> t[j] != b
    ensures r.Some? ==> r.value < |t| && t[r.value] == b && forall j :: 0 <= j < r.value ==> t[j] != b
    ensures r.None? <==> b !in t
    decreases |t| - i
  {
    if i == |t| then None
    else if t[i] == b then Some(i)
    else FindByteFrom(t, b, i + 1)
  }

  function Fill(b: Byte, n: nat): (t: Text)
    ensures |t| == n && forall i :: 0 <= i < n ==> t[i] == b
  {
    seq(n, _ => b)
  }

  /** `t` with the bytes from index `at` on replaced by `b`. */
  function Overwrite(t: Text, at: nat, b: Text): (r: Text)
    requires at + |b| <= |t|
    ensures |r| == |t|
    ensures forall i :: 0 <= i < |t| ==> r[i] == if at <= i < at + |b| then b[i - at] else t[i]
  {
    t[..at] + b + t[at + |b|..]
  }

  lemma OverwriteTwice(t: Text, at: nat, b: Text, c: Text)
    requires at + |b| + |c| <= |t|
    ensures Overwrite(Overwrite(t, at, b), at + |b|, c) == Overwrite(t, at, b + c)
  {
  }

  lemma SliceOfSlice(t: Text, lo: nat, hi: nat, i: nat, j: nat)
    requires lo <= hi <= |t| && i <= j <= hi - lo
    ensures t[lo..hi][i..j] == t[lo + i..lo + j]
  {
    var s := t[lo..hi];
    forall k | 0 <= k < j - i
      ensures s[i..j][k] == t[lo + i..lo + j][k]
    {
      assert s[i..j][k] == s[i + k] == t[lo + i + k];
    }
  }

  /** Overwriting a part of t[lo..hi] is overwriting that part of the slice. */
  lemma OverwriteWithin(t: Text, lo: nat, hi: nat, i: nat, b: Text)
    requires lo <= hi <= |t| && i + |b| <= hi - lo
    ensures Overwrite(t, lo + i, b)[lo..hi] == Overwrite(t[lo..hi], i, b)
    ensures Overwrite(t, lo + i, b) == Overwrite(t, lo, Overwrite(t[lo..hi], i, b))
  {
  }

  lemma OverwriteAgain(t: Text, lo: nat, b: Text, c: Text)
    requires |b| == |c| && lo + |b| <= |t|
    ensures Overwrite(t, lo, b)[lo..lo + |b|] == b
    ensures Overwrite(Overwrite(t, lo, b), lo, c) == Overwrite(t, lo, c)
  {
  }

  /** The bytes of a sequence of packets, one after the other. */
  function Flatten(ps: seq<Text>): Text {
    if ps == [] then [] else ps[0] + Flatten(ps[1..])
  }
}
