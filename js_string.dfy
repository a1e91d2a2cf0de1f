/**
  The one string operation the offer detector uses: JavaScript's
  `String.prototype.includes`, a case-sensitive substring test.
 */
module JsString {

  /** `p` occurs in `s` starting at position `i`. */
  ghost predicate OccursAt(s: string, p: string, i: int)
  {
    0 <= i && i + |p| <= |s| && s[i..i + |p|] == p
  }

  /** An occurrence in the tail `s[1..]` is an occurrence in `s` one position later. */
  lemma OccursAtTail(s: string, p: string, i: nat)
    requires |s| > 0
    ensures OccursAt(s[1..], p, i) <==> OccursAt(s, p, i + 1)
  {
    if 0 <= i && i + |p| <= |s| - 1 {
      assert s[1..][i..i + |p|] == s[i + 1..i + 1 + |p|];
    }
  }

  /**
    `s.includes(p)`: true exactly when `p` occurs somewhere in `s`
    (the empty pattern occurs everywhere).
   */
  function Includes(s: string, p: string): (r: bool)
    ensures r <==> exists i :: OccursAt(s, p, i)
    decreases |s|
  {
    if |s| < |p| then
      assert forall i :: !OccursAt(s, p, i);
      false
    else if s[..|p|] == p then
      assert OccursAt(s, p, 0);
      true
    else
      var r := Includes(s[1..], p);
      assert r ==> exists i :: OccursAt(s, p, i) by {
        if r {
          var i :| OccursAt(s[1..], p, i);
          OccursAtTail(s, p, i);
        }
      }
      assert (exists i :: OccursAt(s, p, i)) ==> r by {
        if exists i :: OccursAt(s, p, i) {
          var i :| OccursAt(s, p, i);
          assert i != 0;
          OccursAtTail(s, p, i - 1);
        }
      }
      r
  }

  /** A string includes every one of its own contiguous pieces. */
  lemma IncludesSlice(s: string, i: nat, j: nat)
    requires i <= j <= |s|
    ensures Includes(s, s[i..j])
  {
    assert OccursAt(s, s[i..j], i);
  }

  /** If `s` includes `p`, so does any string that has `s` as a piece. */
  lemma IncludesInContext(a: string, s: string, b: string, p: string)
    requires Includes(s, p)
    ensures Includes(a + s + b, p)
  {
    var i :| OccursAt(s, p, i);
    var t := a + s + b;
    assert t[|a| + i..|a| + i + |p|] == s[i..i + |p|];
    assert OccursAt(t, p, |a| + i);
  }

  /** A pattern whose first character never occurs in `s` is not included in `s`. */
  lemma FirstCharAbsent(s: string, p: string)
    requires |p| > 0 && p[0] !in s
    ensures !Includes(s, p)
  {
  }

  /**
    `ks.some(k => s.includes(k))`: true exactly when some pattern of `ks`
    occurs in `s`.
   */
  function SomeIncluded(s: string, ks: seq<string>): (r: bool)
    ensures r <==> exists k :: k in ks && Includes(s, k)
  {
    if ks == [] then false
    else
      var rest := SomeIncluded(s, ks[1..]);
      assert rest ==> exists k :: k in ks && Includes(s, k) by {
        if rest {
          var k :| k in ks[1..] && Includes(s, k);
          assert k in ks;
        }
      }
      assert (exists k :: k in ks && Includes(s, k)) ==> Includes(s, ks[0]) || rest by {
        if exists k :: k in ks && Includes(s, k) {
          var k :| k in ks && Includes(s, k);
          assert k == ks[0] || k in ks[1..];
        }
      }
      Includes(s, ks[0]) || rest
  }
}
