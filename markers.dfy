/** The progress-bar markers of contentScript.js. A marker is known by its
    element id, `"remove" + time.toFixed(3)`; the model keeps the part of
    that id that depends on the time. */
module Markers {

  import opened Bookmarks

  /** The id `"remove" + t.toFixed(3)`: a minus sign when `t < 0` and the
      value of `|t|` rounded to thousandths (the digits between "remove"
      and the end of the id; distinct pairs give distinct ids). */
  datatype MarkerId = MarkerId(negative: bool, thousandths: nat)

  function Abs(t: real): real
  {
    if t < 0.0 then -t else t
  }

  /** Number.prototype.toFixed(3) picks the integer n with n / 1000 closest
      to |t|, the larger one on a tie. */
  function Key(t: real): (k: MarkerId)
    ensures k.negative <==> t < 0.0
    ensures -0.5 < k.thousandths as real - Abs(t) * 1000.0 <= 0.5
  {
    MarkerId(t < 0.0, (Abs(t) * 1000.0 + 0.5).Floor)
  }

  /** Times that round to the same thousandth share an id; deleting one of
      them removes whichever of their markers comes first. */
  lemma KeyConflatesNearbyTimes()
    ensures Key(1.0) == Key(1.0004) && 1.0 != 1.0004
    ensures Key(1.0) != Key(1.001)
    ensures Key(30.0) == MarkerId(false, 30000)
  {
    assert (1.0004 * 1000.0 + 0.5).Floor == 1000;
  }

  /** The ids of the markers addAllBookmarkMarkers renders for a list, in
      order. */
  function KeysOf(bs: seq<Bookmark>): (r: seq<MarkerId>)
    ensures |r| == |bs|
    ensures forall i :: 0 <= i < |bs| ==> r[i] == Key(bs[i].time)
  {
    if bs == [] then [] else [Key(bs[0].time)] + KeysOf(bs[1..])
  }

  /** The position of the first marker with id `k`, the element
      `document.getElementById` finds. */
  function FirstIndex(s: seq<MarkerId>, k: MarkerId): (i: nat)
    requires k in s
    ensures i < |s| && s[i] == k && k !in s[..i]
  {
    if s[0] == k then 0
    else
      var j := FirstIndex(s[1..], k);
      assert s[..j + 1] == [s[0]] + s[1..][..j];
      j + 1
  }

  /** removeBookmarkMarker: at most one marker goes, the first with id `k`;
      the others stay in order. */
  function RemoveFirst(s: seq<MarkerId>, k: MarkerId): (r: seq<MarkerId>)
    ensures k !in s ==> r == s
    ensures k in s ==> r == s[..FirstIndex(s, k)] + s[FirstIndex(s, k) + 1..]
  {
    if s == [] then []
    else if s[0] == k then s[1..]
    else
      var r' := RemoveFirst(s[1..], k);
      assert k in s ==> k in s[1..] && FirstIndex(s, k) == FirstIndex(s[1..], k) + 1;
      assert k in s ==> s[FirstIndex(s, k) + 1..] == s[1..][FirstIndex(s[1..], k) + 1..];
      [s[0]] + r'
  }

  lemma {:induction false} RemoveFirstCount(s: seq<MarkerId>, k: MarkerId)
    ensures multiset(RemoveFirst(s, k)) == multiset(s) - multiset{k}
    ensures |RemoveFirst(s, k)| == if k in s then |s| - 1 else |s|
  {
    if k in s {
      var i := FirstIndex(s, k);
      var a, b := s[..i], s[i + 1..];
      assert s == a + [k] + b;
      assert multiset(s) == multiset(a) + multiset{k} + multiset(b);
      assert RemoveFirst(s, k) == a + b;
      assert multiset(a + b) == multiset(a) + multiset(b);
    } else {
      assert multiset(s)[k] == 0;
    }
  }
}
