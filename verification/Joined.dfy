/** Names made of parts that are joined with underscores. */
module Joined {
  /** Parts separated by underscores. */
  function Join(segments: seq<string>): string
    requires segments != []
  {
    if |segments| == 1 then segments[0] else Join(segments[..|segments| - 1]) + "_" + segments[|segments| - 1]
  }

  lemma JoinSnoc(segments: seq<string>, last: string)
    requires segments != []
    ensures Join(segments + [last]) == Join(segments) + "_" + last
  {
    var all := segments + [last];
    assert all[..|all| - 1] == segments;
  }

  predicate NoMark(s: string) { '_' !in s }

  predicate NoMarks(segments: seq<string>) { forall i :: 0 <= i < |segments| ==> NoMark(segments[i]) }

  /** Texts that end in an underscore and a part without underscores end alike only if they are alike. */
  lemma LastSegment(a: string, b: string, x: string, y: string)
    requires NoMark(x) && NoMark(y) && a + "_" + x == b + "_" + y
    ensures a == b && x == y
  {
    var s := a + "_" + x;
    assert s[|a|] == '_' && s[|b|] == '_';
    assert forall k :: |a| < k < |s| ==> s[k] == x[k - |a| - 1];
    assert forall k :: |b| < k < |s| ==> s[k] == y[k - |b| - 1];
    assert |a| == |b|;
    assert s[..|a|] == a && s[..|b|] == b;
    assert s[|a| + 1..] == x && s[|b| + 1..] == y;
  }

  lemma JoinMarked(segments: seq<string>)
    requires |segments| > 1
    ensures '_' in Join(segments)
  {
    var s, n := Join(segments), |segments| - 1;
    assert s[|Join(segments[..n])|] == '_';
  }

  lemma {:induction false} JoinInjective(a: seq<string>, b: seq<string>)
    requires a != [] && b != [] && NoMarks(a) && NoMarks(b) && Join(a) == Join(b)
    ensures a == b
  {
    var m, n := |a| - 1, |b| - 1;
    if m > 0 {
      JoinMarked(a);
    }
    if n > 0 {
      JoinMarked(b);
    }
    if m > 0 && n > 0 {
      LastSegment(Join(a[..m]), Join(b[..n]), a[m], b[n]);
      JoinInjective(a[..m], b[..n]);
      assert a == a[..m] + [a[m]] && b == b[..n] + [b[n]];
    } else {
      assert a == [a[0]] && b == [b[0]];
    }
  }
}
