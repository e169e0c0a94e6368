/**
 * Python's ordering of `str` values (code point by code point, a proper
 * prefix first) and `sorted(set(...))` over strings, which the cancellation
 * menu uses to list the groups that hold bookings.
 */
module StringOrder {

  /**
   * `a` and `b` agree on their first `k` characters, and then either `a`
   * ends while `b` goes on, or `a`'s next character is the smaller one.
   */
  ghost predicate FirstDifferenceAt(a: string, b: string, k: int) {
    0 <= k <= |a| && k < |b| && a[..k] == b[..k] && (k == |a| || a[k] < b[k])
  }

  /** Python's `a < b` on strings. */
  function Less(a: string, b: string): (less: bool)
    ensures less <==> exists k :: FirstDifferenceAt(a, b, k)
  {
    assert forall k :: 0 < k <= |a| && k < |b| ==> a[..k][0] == a[0] && b[..k][0] == b[0];
    assert |b| > 0 ==> FirstDifferenceAt(a, b, 0) == (|a| == 0 || a[0] < b[0]);
    if |a| == 0 then |b| > 0
    else if |b| == 0 then false
    else if a[0] != b[0] then a[0] < b[0]
    else
      var less := Less(a[1..], b[1..]);
      forall k | FirstDifferenceAt(a[1..], b[1..], k)
        ensures FirstDifferenceAt(a, b, k + 1)
      {
        assert a[..k + 1] == [a[0]] + a[1..][..k];
        assert b[..k + 1] == [b[0]] + b[1..][..k];
      }
      forall k | FirstDifferenceAt(a, b, k)
        ensures k >= 1 && FirstDifferenceAt(a[1..], b[1..], k - 1)
      {
        assert k >= 1;
        assert a[1..][..k - 1] == a[..k][1..];
        assert b[1..][..k - 1] == b[..k][1..];
      }
      less
  }

  lemma {:induction false} LessIrreflexive(a: string)
    ensures !Less(a, a)
  {
    if |a| > 0 {
      LessIrreflexive(a[1..]);
    }
  }

  lemma {:induction false} LessAsymmetric(a: string, b: string)
    requires Less(a, b)
    ensures !Less(b, a)
  {
    if |a| > 0 && |b| > 0 && a[0] == b[0] {
      LessAsymmetric(a[1..], b[1..]);
    }
  }

  lemma {:induction false} LessTransitive(a: string, b: string, c: string)
    requires Less(a, b) && Less(b, c)
    ensures Less(a, c)
  {
    if |a| > 0 && |b| > 0 && |c| > 0 && a[0] == b[0] == c[0] {
      LessTransitive(a[1..], b[1..], c[1..]);
    }
  }

  /** Two different strings are always ordered one way or the other. */
  lemma {:induction false} LessTotal(a: string, b: string)
    requires a != b
    ensures Less(a, b) || Less(b, a)
  {
    if |a| > 0 && |b| > 0 && a[0] == b[0] {
      assert a == [a[0]] + a[1..] && b == [b[0]] + b[1..];
      LessTotal(a[1..], b[1..]);
    }
  }

  /** Sorted ascending with no repeated element: what `sorted(set(xs))` returns. */
  predicate StrictlyAscending(s: seq<string>) {
    forall i, j :: 0 <= i < j < |s| ==> Less(s[i], s[j])
  }

  /** Adds `x` at its place in a strictly ascending sequence, unless it is there already. */
  function Insert(s: seq<string>, x: string): (r: seq<string>)
    requires StrictlyAscending(s)
    ensures StrictlyAscending(r)
    ensures forall y :: y in r <==> y in s || y == x
  {
    if s == [] then [x]
    else if x == s[0] then s
    else if Less(x, s[0]) then
      assert forall j :: 0 < j < |s| ==> Less(x, s[j]) by {
        forall j | 0 < j < |s| ensures Less(x, s[j]) {
          LessTransitive(x, s[0], s[j]);
        }
      }
      [x] + s
    else
      LessTotal(x, s[0]);
      var rest := Insert(s[1..], x);
      assert forall y :: y in rest ==> Less(s[0], y);
      [s[0]] + rest
  }

  /** The head of a strictly ascending sequence is below every other element. */
  lemma HeadIsLeast(s: seq<string>)
    requires StrictlyAscending(s) && s != []
    ensures !Less(s[0], s[0])
    ensures forall y :: y in s ==> y == s[0] || Less(s[0], y)
  {
    LessIrreflexive(s[0]);
  }

  /** Every strictly ascending arrangement of one set is the same sequence. */
  lemma {:induction false} StrictlyAscendingUnique(s: seq<string>, t: seq<string>)
    requires StrictlyAscending(s) && StrictlyAscending(t)
    requires forall y :: y in s <==> y in t
    ensures s == t
  {
    assert s != [] ==> s[0] in t;
    assert t != [] ==> t[0] in s;
    if s != [] {
      HeadIsLeast(s);
      HeadIsLeast(t);
      assert s[0] in t && t[0] in s;
      if Less(s[0], t[0]) {
        LessAsymmetric(s[0], t[0]);
      }
      assert s[0] == t[0];
      forall y
        ensures y in s[1..] <==> y in t[1..]
      {
        assert y in s[1..] <==> y in s && y != s[0];
        assert y in t[1..] <==> y in t && y != t[0];
      }
      StrictlyAscendingUnique(s[1..], t[1..]);
    }
  }
}
