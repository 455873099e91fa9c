/**
 * The string helpers the engine relies on: Go's strings.Contains and
 * strings.Index, and the membership test util.In built on containment.
 */
module Strings {

  /** `sub` occurs in `s` starting at offset `i`. */
  ghost predicate OccursAt(s: string, sub: string, i: int)
  {
    0 <= i && i + |sub| <= |s| && s[i..i + |sub|] == sub
  }

  /** strings.Contains(s, sub): `sub` is a prefix of `s` or of some suffix of `s`. */
  predicate Contains(s: string, sub: string)
    decreases |s|
  {
    (|sub| <= |s| && s[..|sub|] == sub) || (|s| > 0 && Contains(s[1..], sub))
  }

  /** Contains agrees with the offset-based reading of a substring. */
  lemma {:induction false} ContainsIff(s: string, sub: string)
    ensures Contains(s, sub) <==> exists i :: OccursAt(s, sub, i)
    decreases |s|
  {
    if |sub| <= |s| && s[..|sub|] == sub {
      assert OccursAt(s, sub, 0);
    } else if |s| > 0 && Contains(s[1..], sub) {
      ContainsIff(s[1..], sub);
      var i :| OccursAt(s[1..], sub, i);
      assert s[1..][i..i + |sub|] == s[i + 1..i + 1 + |sub|];
      assert OccursAt(s, sub, i + 1);
    } else {
      if exists i :: OccursAt(s, sub, i) {
        var i :| OccursAt(s, sub, i);
        assert i != 0;
        assert s[1..][i - 1..i - 1 + |sub|] == s[i..i + |sub|];
        assert OccursAt(s[1..], sub, i - 1);
        ContainsIff(s[1..], sub);
      }
    }
  }

  /** Every string contains itself and the empty string. */
  lemma ContainsSelfAndEmpty(s: string)
    ensures Contains(s, s) && Contains(s, "")
  {
  }

  /** Containment runs one way: nothing longer than `s` occurs in `s`. */
  lemma {:induction false} ContainsNotLonger(s: string, sub: string)
    requires Contains(s, sub)
    ensures |sub| <= |s|
    decreases |s|
  {
    if !(|sub| <= |s| && s[..|sub|] == sub) {
      ContainsNotLonger(s[1..], sub);
    }
  }

  /** util.In(vs, s): some `v` in `vs` equals `s` or occurs in `s`. */
  predicate In(vs: seq<string>, s: string)
  {
    exists i :: 0 <= i < |vs| && (s == vs[i] || Contains(s, vs[i]))
  }

  /** util.In as the loop it is: scan `vs` front to back and stop at the first member that matches. */
  method Scan(vs: seq<string>, s: string) returns (found: bool)
    ensures found <==> In(vs, s)
  {
    var k := 0;
    while k < |vs|
      invariant 0 <= k <= |vs|
      invariant forall j :: 0 <= j < k ==> s != vs[j] && !Contains(s, vs[j])
    {
      if s == vs[k] || Contains(s, vs[k]) {
        return true;
      }
      k := k + 1;
    }
    return false;
  }

  /** The equality test inside In is subsumed by containment. */
  lemma InIsContainment(vs: seq<string>, s: string)
    ensures In(vs, s) <==> exists i :: 0 <= i < |vs| && Contains(s, vs[i])
  {
    if In(vs, s) {
      var i :| 0 <= i < |vs| && (s == vs[i] || Contains(s, vs[i]));
      ContainsSelfAndEmpty(s);
      assert Contains(s, vs[i]);
    }
  }

  /** An empty string in the list makes In true for every `s`. */
  lemma InWithEmptyMember(vs: seq<string>, s: string)
    requires "" in vs
    ensures In(vs, s)
  {
    var i :| 0 <= i < |vs| && vs[i] == "";
    ContainsSelfAndEmpty(s);
    assert Contains(s, vs[i]);
  }

  /** A member longer than `s` never makes In true: In(["Dockerfile"], "Docker") is false. */
  lemma InOneWay(vs: seq<string>, s: string)
    requires forall i :: 0 <= i < |vs| ==> |vs[i]| > |s|
    ensures !In(vs, s)
  {
    if In(vs, s) {
      var i :| 0 <= i < |vs| && (s == vs[i] || Contains(s, vs[i]));
      if Contains(s, vs[i]) {
        ContainsNotLonger(s, vs[i]);
      }
    }
  }

  lemma DockerfileNotInDocker()
    ensures !In(["Dockerfile"], "Docker")
  {
    InOneWay(["Dockerfile"], "Docker");
  }

  /** In depends only on which strings are listed: not on their order or repetition, and listing more never hurts. */
  lemma InMonotone(vs: seq<string>, ws: seq<string>, s: string)
    requires forall v :: v in vs ==> v in ws
    ensures In(vs, s) ==> In(ws, s)
  {
    if In(vs, s) {
      var i :| 0 <= i < |vs| && (s == vs[i] || Contains(s, vs[i]));
      assert vs[i] in ws;
      var k :| 0 <= k < |ws| && ws[k] == vs[i];
    }
  }

  lemma InOrderIndependent(vs: seq<string>, ws: seq<string>, s: string)
    requires forall v :: v in vs <==> v in ws
    ensures In(vs, s) == In(ws, s)
  {
    InMonotone(vs, ws, s);
    InMonotone(ws, vs, s);
  }

  /** strings.Index(s, string(c)): the offset of the first `c` in `s`, or -1. */
  function IndexOf(s: string, c: char): (r: int)
    ensures -1 <= r < |s|
    ensures r == -1 <==> c !in s
    ensures r >= 0 ==> s[r] == c && c !in s[..r]
  {
    if s == [] then -1
    else if s[0] == c then 0
    else
      var k := IndexOf(s[1..], c);
      if k == -1 then -1
      else (assert s[..k + 1] == [s[0]] + s[1..][..k]; k + 1)
  }

  /**
   * `s[strings.Index(s, "/")+1:]` for separator `sep`: everything up to and
   * including the first separator is dropped; without one `s` is kept whole.
   */
  function AfterFirst(s: string, sep: char): (r: string)
    ensures sep !in s ==> r == s
    ensures sep in s ==> |r| < |s| && s == s[..|s| - |r| - 1] + [sep] + r && sep !in s[..|s| - |r| - 1]
  {
    var k := IndexOf(s, sep);
    assert k >= 0 ==> s == s[..k] + [sep] + s[k + 1..];
    s[k + 1..]
  }
}
