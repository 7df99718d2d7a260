/** Boolean-mask indexing, `df[mask]`: keep the entries whose mask value is
    true, in their original order. */
module Selection {

  /** The entries of `s` whose mask entry is true, in order. */
  function Select<T>(s: seq<T>, mask: seq<bool>): (r: seq<T>)
    requires |mask| == |s|
    ensures |r| <= |s|
    ensures multiset(r) <= multiset(s)
    decreases |s|
  {
    if s == [] then []
    else
      var n := |s| - 1;
      assert s == s[..n] + [s[n]];
      Select(s[..n], mask[..n]) + (if mask[n] then [s[n]] else [])
  }

  /** The indices at which `mask` is true, in ascending order: the reference
      description of which entries a mask keeps and in what order. */
  ghost function Positions(mask: seq<bool>): (p: seq<nat>)
    ensures forall k :: 0 <= k < |p| ==> p[k] < |mask|
    ensures forall k, l :: 0 <= k < l < |p| ==> p[k] < p[l]
    ensures forall i :: 0 <= i < |mask| ==> (mask[i] <==> i in p)
    decreases |mask|
  {
    if mask == [] then []
    else
      var n := |mask| - 1;
      Positions(mask[..n]) + (if mask[n] then [n] else [])
  }

  /** The selection is exactly the entries at the mask's true positions,
      taken in ascending index order: original relative order is kept. */
  lemma {:induction false} SelectAtPositions<T>(s: seq<T>, mask: seq<bool>)
    requires |mask| == |s|
    ensures |Select(s, mask)| == |Positions(mask)|
    ensures forall k :: 0 <= k < |Positions(mask)| ==> Select(s, mask)[k] == s[Positions(mask)[k]]
    decreases |s|
  {
    if s != [] {
      var n := |s| - 1;
      SelectAtPositions(s[..n], mask[..n]);
      var p, r := Positions(mask[..n]), Select(s[..n], mask[..n]);
      assert Positions(mask) == p + (if mask[n] then [n] else []);
      assert Select(s, mask) == r + (if mask[n] then [s[n]] else []);
      forall k | 0 <= k < |p| ensures Select(s, mask)[k] == s[Positions(mask)[k]] {
        assert r[k] == s[..n][p[k]];
      }
    }
  }

  /** The multiset of a selection grows by the last entry exactly when the
      last mask entry is true. */
  lemma SelectLast<T>(s: seq<T>, mask: seq<bool>)
    requires |mask| == |s| > 0
    ensures var n := |s| - 1;
      && multiset(s) == multiset(s[..n]) + multiset{s[n]}
      && multiset(Select(s, mask)) ==
           multiset(Select(s[..n], mask[..n])) + if mask[n] then multiset{s[n]} else multiset{}
  {
    var n := |s| - 1;
    assert s == s[..n] + [s[n]];
  }

  /** How often a value occurs in a selection made by a mask that tests a
      property of each entry: as often as in `s` if it has the property,
      never otherwise. */
  lemma {:induction false} SelectCount<T>(s: seq<T>, mask: seq<bool>, keep: T -> bool, v: T)
    requires |mask| == |s|
    requires forall i :: 0 <= i < |s| ==> mask[i] == keep(s[i])
    ensures multiset(Select(s, mask))[v] == if keep(v) then multiset(s)[v] else 0
    decreases |s|
  {
    if s != [] {
      var n := |s| - 1;
      SelectLast(s, mask);
      SelectCount(s[..n], mask[..n], keep, v);
    }
  }
}
