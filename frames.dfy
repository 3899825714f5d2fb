/**
 * Frame metadata and the pure functions over a buffered sequence of frames:
 * sorted insertion, selection of the frame for a presentation time, lookup by
 * frame number and collection of handles.
 */
module Frames {
  import opened Wrappers

  /**
   * Metadata of one decoded frame. The pixel data stays with the host; `jsHandle`
   * is the opaque index into the host's frame storage. Presentation timestamps
   * only take part in comparisons, so they are exact reals here.
   */
  datatype FrameInfo = FrameInfo(frameNumber: nat, ptsMs: real, jsHandle: nat)

  /** Records are in non-decreasing order of presentation time. */
  ghost predicate Sorted(s: seq<FrameInfo>) {
    forall i, j :: 0 <= i < j < |s| ==> s[i].ptsMs <= s[j].ptsMs
  }

  /** No frame number occurs twice. */
  ghost predicate UniqueNumbers(s: seq<FrameInfo>) {
    forall i, j :: 0 <= i < j < |s| ==> s[i].frameNumber != s[j].frameNumber
  }

  lemma SortedSuffix(s: seq<FrameInfo>, n: nat)
    requires Sorted(s) && n <= |s|
    ensures Sorted(s[n..])
  {
    forall i, j | 0 <= i < j < |s[n..]|
      ensures s[n..][i].ptsMs <= s[n..][j].ptsMs
    {
      assert s[n..][i] == s[n + i] && s[n..][j] == s[n + j];
    }
  }

  /** Dropping `a` records and then `b` more is dropping `a + b`. */
  lemma DropTwice(s: seq<FrameInfo>, a: nat, b: nat)
    requires a + b <= |s|
    ensures s[a..][b..] == s[a + b..]
  {
  }

  // ---------------------------------------------------------------------------
  // Sorted insertion
  // ---------------------------------------------------------------------------

  /** The index of the first record whose timestamp exceeds the new frame's, or |s|. */
  function InsertPos(s: seq<FrameInfo>, f: FrameInfo): (p: nat)
    ensures p <= |s|
    ensures forall k :: 0 <= k < p ==> s[k].ptsMs <= f.ptsMs
    ensures p < |s| ==> s[p].ptsMs > f.ptsMs
  {
    if s == [] || s[0].ptsMs > f.ptsMs then 0 else 1 + InsertPos(s[1..], f)
  }

  /**
   * `s` with `f` inserted at its `InsertPos`: one record longer, with `f` at that
   * position. InsertSorted, InsertPlacement, InsertKeepsOrder and InsertMultiset
   * give the rest of its meaning.
   */
  function Insert(s: seq<FrameInfo>, f: FrameInfo): (r: seq<FrameInfo>)
    ensures |r| == |s| + 1
    ensures r[InsertPos(s, f)] == f
  {
    var p := InsertPos(s, f);
    s[..p] + [f] + s[p..]
  }

  /** Insertion keeps the buffer sorted. */
  lemma InsertSorted(s: seq<FrameInfo>, f: FrameInfo)
    requires Sorted(s)
    ensures Sorted(Insert(s, f))
  {
    var p := InsertPos(s, f);
    var r := Insert(s, f);
    forall i, j | 0 <= i < j < |r|
      ensures r[i].ptsMs <= r[j].ptsMs
    {
      if j < p {
        assert r[i] == s[i] && r[j] == s[j];
      } else if j == p {
        assert r[j] == f && r[i] == s[i];
      } else if i < p {
        assert r[i] == s[i] && r[j] == s[j - 1];
      } else if i == p {
        assert r[i] == f && r[j] == s[j - 1];
        assert s[p].ptsMs <= s[j - 1].ptsMs;
      } else {
        assert r[i] == s[i - 1] && r[j] == s[j - 1];
      }
    }
  }

  /**
   * Where insertion puts the new frame: after every record whose timestamp is
   * not greater (so after existing records with an equal timestamp) and, in a
   * sorted buffer, before every record whose timestamp is greater.
   */
  lemma InsertPlacement(s: seq<FrameInfo>, f: FrameInfo)
    ensures var p := InsertPos(s, f); var r := Insert(s, f);
      |r| == |s| + 1 && r[p] == f &&
      (forall k :: 0 <= k < p ==> r[k].ptsMs <= f.ptsMs) &&
      (Sorted(s) ==> forall k :: p < k < |r| ==> r[k].ptsMs > f.ptsMs)
  {
    var p := InsertPos(s, f);
    var r := Insert(s, f);
    forall k | p < k < |r| && Sorted(s)
      ensures r[k].ptsMs > f.ptsMs
    {
      assert r[k] == s[k - 1];
      assert s[p].ptsMs <= s[k - 1].ptsMs;
    }
  }

  /** Taking the new frame back out leaves the existing records in their old order. */
  lemma InsertKeepsOrder(s: seq<FrameInfo>, f: FrameInfo)
    ensures var p := InsertPos(s, f); var r := Insert(s, f);
      r[..p] + r[p + 1..] == s
  {
    var p := InsertPos(s, f);
    var a, b := s[..p], s[p..];
    assert Insert(s, f) == a + [f] + b;
    assert (a + [f] + b)[..p] == a;
    assert (a + [f] + b)[p + 1..] == b;
    assert a + b == s;
  }

  /** Insertion adds exactly the new frame. */
  lemma InsertMultiset(s: seq<FrameInfo>, f: FrameInfo)
    ensures multiset(Insert(s, f)) == multiset(s) + multiset{f}
  {
    var p := InsertPos(s, f);
    assert s == s[..p] + s[p..];
  }

  /** A frame not earlier than any buffered one is appended (the in-order arrival case). */
  lemma InsertAtEnd(s: seq<FrameInfo>, f: FrameInfo)
    requires forall k :: 0 <= k < |s| ==> s[k].ptsMs <= f.ptsMs
    ensures Insert(s, f) == s + [f]
  {
    assert InsertPos(s, f) == |s|;
  }

  // ---------------------------------------------------------------------------
  // Selection of the frame for a presentation time
  // ---------------------------------------------------------------------------

  /**
   * Index `i` holds the latest frame due at time `t`: its timestamp is at most `t`,
   * no due frame has a later timestamp, and no earlier index holds a due frame
   * with the same timestamp (the first one among ties wins).
   */
  ghost predicate IsLatestAtOrBefore(s: seq<FrameInfo>, t: real, i: nat) {
    i < |s| && s[i].ptsMs <= t &&
    (forall k :: 0 <= k < |s| && s[k].ptsMs <= t ==> s[k].ptsMs <= s[i].ptsMs) &&
    (forall k :: 0 <= k < i && s[k].ptsMs <= t ==> s[k].ptsMs < s[i].ptsMs)
  }

  /** The index of the latest frame due at `t`, scanning from the front; None when no frame is due. */
  function LatestAtOrBefore(s: seq<FrameInfo>, t: real): (r: Option<nat>)
    ensures r.None? <==> forall k :: 0 <= k < |s| ==> s[k].ptsMs > t
    ensures r.Some? ==> IsLatestAtOrBefore(s, t, r.value)
    decreases |s|
  {
    if s == [] then None
    else
      var front := s[..|s| - 1];
      var best := LatestAtOrBefore(front, t);
      var last := s[|s| - 1];
      assert forall k :: 0 <= k < |front| ==> front[k] == s[k];
      if last.ptsMs <= t && (best.None? || last.ptsMs > s[best.value].ptsMs) then Some(|s| - 1)
      else best
  }

  /** At most one index satisfies the selection rule. */
  lemma LatestIsUnique(s: seq<FrameInfo>, t: real, i: nat, j: nat)
    requires IsLatestAtOrBefore(s, t, i) && IsLatestAtOrBefore(s, t, j)
    ensures i == j
  {
  }

  /**
   * The selection loop: one pass from the front, keeping the best index and its
   * timestamp; a record replaces the best only with a strictly later timestamp.
   * `bestIdx == None` plays the part of the negative-infinity seed.
   */
  method SelectLatest(s: seq<FrameInfo>, t: real) returns (bestIdx: Option<nat>)
    ensures bestIdx == LatestAtOrBefore(s, t)
  {
    bestIdx := None;
    var bestPts: real := 0.0;
    for idx := 0 to |s|
      invariant bestIdx == LatestAtOrBefore(s[..idx], t)
      invariant bestIdx.Some? ==> bestIdx.value < idx && bestPts == s[bestIdx.value].ptsMs
    {
      assert s[..idx + 1][..idx] == s[..idx];
      if s[idx].ptsMs <= t && (bestIdx.None? || s[idx].ptsMs > bestPts) {
        bestPts := s[idx].ptsMs;
        bestIdx := Some(idx);
      }
    }
    assert s[..|s|] == s;
  }

  // ---------------------------------------------------------------------------
  // Lookup by frame number
  // ---------------------------------------------------------------------------

  /** The index of the first record carrying frame number `n`, if any. */
  function IndexOfNumber(s: seq<FrameInfo>, n: nat): (r: Option<nat>)
    ensures r.None? <==> forall k :: 0 <= k < |s| ==> s[k].frameNumber != n
    ensures r.Some? ==> r.value < |s| && s[r.value].frameNumber == n
    ensures r.Some? ==> forall k :: 0 <= k < r.value ==> s[k].frameNumber != n
  {
    if s == [] then None
    else if s[0].frameNumber == n then Some(0)
    else
      match IndexOfNumber(s[1..], n)
      case None => None
      case Some(k) => Some(k + 1)
  }

  /** With unique frame numbers, the first record with a given record's number is that record. */
  lemma IndexOfUniqueNumber(s: seq<FrameInfo>, i: nat)
    requires UniqueNumbers(s) && i < |s|
    ensures IndexOfNumber(s, s[i].frameNumber) == Some(i)
  {
  }

  // ---------------------------------------------------------------------------
  // Handles
  // ---------------------------------------------------------------------------

  /** The handles of the records, in buffer order. */
  function Handles(s: seq<FrameInfo>): (hs: seq<nat>)
    ensures |hs| == |s|
    ensures forall k :: 0 <= k < |s| ==> hs[k] == s[k].jsHandle
  {
    if s == [] then [] else [s[0].jsHandle] + Handles(s[1..])
  }

  /** The handles returned are exactly those of the buffered records. */
  lemma HandlesExactly(s: seq<FrameInfo>)
    ensures forall f :: f in s ==> f.jsHandle in Handles(s)
    ensures forall h :: h in Handles(s) ==> exists f :: f in s && f.jsHandle == h
  {
    var hs := Handles(s);
    forall f | f in s
      ensures f.jsHandle in hs
    {
      var k :| 0 <= k < |s| && s[k] == f;
      assert hs[k] == f.jsHandle;
    }
    forall h | h in hs
      ensures exists f :: f in s && f.jsHandle == h
    {
      var k :| 0 <= k < |hs| && hs[k] == h;
      assert s[k] in s && s[k].jsHandle == h;
    }
  }
}
