/** A JavaScript `Set` of strings as the engine uses it: a sequence without
    duplicates whose order is the order of insertion, which is the order in
    which `Array.from` lists it. */
module OrderedSet {

  /** No element occurs twice. */
  predicate NoDup(s: seq<string>) {
    forall i, j :: 0 <= i < j < |s| ==> s[i] != s[j]
  }

  /** `add`: a new element goes to the end; an element already present
      keeps its place. */
  function Add(s: seq<string>, x: string): (r: seq<string>)
    ensures x in r
    ensures forall y :: y in r <==> y in s || y == x
    ensures NoDup(s) ==> NoDup(r)
    ensures x !in s ==> |r| == |s| + 1 && r[..|s|] == s && r[|s|] == x
    ensures x in s ==> r == s
  {
    if x in s then s else s + [x]
  }

  /** `delete`: drops `x` and keeps every other element in its order; in a
      sequence without duplicates that is cutting `x` out where it stands. */
  function Delete(s: seq<string>, x: string): (r: seq<string>)
    ensures forall y :: y in r <==> y in s && y != x
    ensures |r| <= |s|
    ensures NoDup(s) ==> NoDup(r)
    ensures NoDup(s) && x in s ==> |r| == |s| - 1
    ensures NoDup(s) && x in s ==> r == s[..FirstPos(s, x)] + s[FirstPos(s, x) + 1..]
    ensures x !in s ==> r == s
  {
    if s == [] then []
    else
      var init, last := s[..|s| - 1], s[|s| - 1];
      assert s == init + [last];
      assert NoDup(s) ==> NoDup(init) && last !in init;
      if last == x then
        assert NoDup(s) ==> FirstPos(s, x) == |s| - 1 && s[..|s| - 1] + s[|s|..] == init;
        Delete(init, x)
      else
        var rest := Delete(init, x);
        if NoDup(s) && x in s then
          FirstPosPrefix(s, |s| - 1, x);
          CutKeepsLast(init, last, FirstPos(init, x), rest);
          rest + [last]
        else
          rest + [last]
  }

  /** Cutting position `i` out of the front part of a sequence cuts it out
      of the whole. */
  lemma CutKeepsLast(init: seq<string>, last: string, i: nat, rest: seq<string>)
    requires i < |init| && rest == init[..i] + init[i + 1..]
    ensures rest + [last] == (init + [last])[..i] + (init + [last])[i + 1..]
  {
    var s := init + [last];
    assert s[..i] == init[..i];
    assert s[i + 1..] == init[i + 1..] + [last];
  }

  /** Index of the first occurrence of `x` in `a`. */
  function FirstPos(a: seq<string>, x: string): (k: nat)
    requires x in a
    ensures k < |a| && a[k] == x
    ensures forall j :: 0 <= j < k ==> a[j] != x
  {
    if a[0] == x then 0 else 1 + FirstPos(a[1..], x)
  }

  /** An element of a prefix first occurs in the whole where it first occurs
      in the prefix. */
  lemma FirstPosPrefix(a: seq<string>, n: nat, x: string)
    requires n <= |a| && x in a[..n]
    ensures FirstPos(a, x) == FirstPos(a[..n], x)
  {
    var k, kn := FirstPos(a, x), FirstPos(a[..n], x);
    assert a[kn] == x;
  }

  /** Elements of `r` appear in the order of their first occurrences in `a`. */
  predicate FirstOccurrenceOrder(r: seq<string>, a: seq<string>)
    requires forall y :: y in r ==> y in a
  {
    forall i, j :: 0 <= i < j < |r| ==> FirstPos(a, r[i]) < FirstPos(a, r[j])
  }

  /** One more array element either is already in the set or goes after
      every element, keeping first-occurrence order. */
  lemma FirstOccurrenceOrderStep(a: seq<string>, init: seq<string>)
    requires |a| > 0
    requires forall y :: y in init <==> y in a[..|a| - 1]
    requires FirstOccurrenceOrder(init, a[..|a| - 1])
    ensures var last := a[|a| - 1];
            var r := if last in init then init else init + [last];
            (forall y :: y in r ==> y in a) && FirstOccurrenceOrder(r, a)
  {
    var n, last := |a| - 1, a[|a| - 1];
    var r := if last in init then init else init + [last];
    assert a == a[..n] + [last];
    forall y | y in init ensures FirstPos(a, y) == FirstPos(a[..n], y) {
      FirstPosPrefix(a, n, y);
    }
    forall i, j | 0 <= i < j < |r| ensures FirstPos(a, r[i]) < FirstPos(a, r[j]) {
      assert r[i] in init;
      if j < |init| {
        assert r[j] in init;
      } else {
        assert FirstPos(a, last) == n;
      }
    }
  }

  /** `new Set(array)`: keeps the first occurrence of every element, in the
      order of those first occurrences. */
  function FromArray(a: seq<string>): (r: seq<string>)
    ensures NoDup(r)
    ensures forall y :: y in r <==> y in a
    ensures FirstOccurrenceOrder(r, a)
    ensures |r| <= |a|
    ensures NoDup(a) ==> r == a
  {
    if a == [] then []
    else
      var init := FromArray(a[..|a| - 1]);
      assert NoDup(a) ==> NoDup(a[..|a| - 1]) && a[|a| - 1] !in a[..|a| - 1];
      assert a == a[..|a| - 1] + [a[|a| - 1]];
      FirstOccurrenceOrderStep(a, init);
      if a[|a| - 1] in init then init else init + [a[|a| - 1]]
  }

  /** Deleting an element that was just added restores the sequence exactly. */
  lemma {:induction false} DeleteUndoesAdd(s: seq<string>, x: string)
    requires x !in s
    ensures Delete(Add(s, x), x) == s
  {
    var t := s + [x];
    assert t[..|t| - 1] == s;
  }
}
