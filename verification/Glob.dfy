/** The include-path matcher (src/config/parser.rs). */
module Glob {

  /** What the pattern means: `*` stands for any run, `?` for one character. */
  predicate Matches(p: string, n: string)
    decreases |p| + |n|
  {
    if p == "" then n == ""
    else if p[0] == '*' then Matches(p[1..], n) || (n != "" && Matches(p, n[1..]))
    else n != "" && (p[0] == '?' || p[0] == n[0]) && Matches(p[1..], n[1..])
  }

  predicate AllStars(s: string) {
    forall i :: 0 <= i < |s| ==> s[i] == '*'
  }

  /** Positions of the scan; `star` is the last star seen, -1 for none, and `mark` where its run ends so far. */
  ghost predicate Position(p: string, n: string, pi: int, ni: int, star: int, mark: int) {
    0 <= pi <= |p| && -1 <= star < pi && 0 <= mark <= ni <= |n| && (star >= 0 ==> p[star] == '*')
  }

  /** The answer of the scan from a position on. */
  ghost predicate Scan(p: string, n: string, pi: int, ni: int, star: int, mark: int)
    requires Position(p, n, pi, ni, star, mark)
    decreases |n| - mark, |p| - star, |n| - ni
  {
    if ni == |n| then AllStars(p[pi..])
    else if pi < |p| && (p[pi] == '?' || p[pi] == n[ni]) then Scan(p, n, pi + 1, ni + 1, star, mark)
    else if pi < |p| && p[pi] == '*' then Scan(p, n, pi + 1, ni, pi, ni)
    else if star >= 0 then Scan(p, n, star + 1, mark + 1, star, mark + 1)
    else false
  }

  ghost predicate Accepts(p: string, n: string) {
    Scan(p, n, 0, 0, -1, 0)
  }

  method GlobMatch(p: string, n: string) returns (r: bool)
    ensures r == Accepts(p, n)
    ensures r ==> Matches(p, n)
    ensures '*' !in n || '*' !in p ==> r == Matches(p, n)
  {
    GlobSound(p, n);
    if '*' !in n || '*' !in p {
      GlobComplete(p, n);
    }
    var pi, ni, star, mark := 0, 0, -1, 0;
    while ni < |n|
      invariant Position(p, n, pi, ni, star, mark) && Scan(p, n, pi, ni, star, mark) == Accepts(p, n)
      decreases |n| - mark, |p| - star, |n| - ni
    {
      if pi < |p| && (p[pi] == '?' || p[pi] == n[ni]) {
        pi, ni := pi + 1, ni + 1;
      } else if pi < |p| && p[pi] == '*' {
        star, mark, pi := pi, ni, pi + 1;
      } else if star != -1 {
        pi, mark := star + 1, mark + 1;
        ni := mark;
      } else {
        return false;
      }
    }
    ghost var rest := p[pi..];
    while pi < |p| && p[pi] == '*'
      invariant 0 <= pi <= |p| && AllStars(rest) == AllStars(p[pi..])
    {
      assert p[pi..] == "*" + p[pi + 1..];
      StarsMatchNothing(p[pi..]);
      StarsMatchNothing(p[pi + 1..]);
      pi := pi + 1;
    }
    assert pi < |p| ==> p[pi..][0] != '*';
    return pi == |p|;
  }

  // ---- acceptance is never wrong ----

  lemma {:induction false} StarsMatchNothing(p: string)
    ensures AllStars(p) == Matches(p, "")
  {
    if p != "" {
      StarsMatchNothing(p[1..]);
      assert forall i :: 0 < i < |p| ==> p[i] == p[1..][i - 1];
    }
  }

  lemma {:induction false} ScanSound(p: string, n: string, pi: int, ni: int, star: int, mark: int)
    requires Position(p, n, pi, ni, star, mark) && Scan(p, n, pi, ni, star, mark)
    ensures Matches(p[pi..], n[ni..]) || (star >= 0 && Matches(p[star..], n[mark..]))
    decreases |n| - mark, |p| - star, |n| - ni
  {
    if ni == |n| {
      StarsMatchNothing(p[pi..]);
    } else if pi < |p| && (p[pi] == '?' || p[pi] == n[ni]) {
      ScanSound(p, n, pi + 1, ni + 1, star, mark);
      AtHead(p, n, pi, ni);
    } else if pi < |p| && p[pi] == '*' {
      ScanSound(p, n, pi + 1, ni, pi, ni);
      AtHead(p, n, pi, ni);
    } else {
      ScanSound(p, n, star + 1, mark + 1, star, mark + 1);
      AtHead(p, n, star, mark);
    }
  }

  /** One step of the meaning at positions of the two strings. */
  lemma AtHead(p: string, n: string, i: int, j: int)
    requires 0 <= i < |p| && 0 <= j < |n|
    ensures p[i] == '*' ==> Matches(p[i..], n[j..]) == (Matches(p[i + 1..], n[j..]) || Matches(p[i..], n[j + 1..]))
    ensures p[i] == '*' && Matches(p[i + 1..], n[j + 1..]) ==> Matches(p[i..], n[j..])
    ensures p[i] != '*' ==> Matches(p[i..], n[j..]) == ((p[i] == '?' || p[i] == n[j]) && Matches(p[i + 1..], n[j + 1..]))
  {
    assert p[i..][1..] == p[i + 1..] && n[j..][1..] == n[j + 1..];
  }

  lemma GlobSound(p: string, n: string)
    ensures Accepts(p, n) ==> Matches(p, n)
  {
    if Accepts(p, n) {
      ScanSound(p, n, 0, 0, -1, 0);
      assert p[0..] == p && n[0..] == n;
    }
  }

  // ---- remembering only the last star loses no match ----

  /** Since the last star the scan has gone through plain pattern characters, one per character of the name. */
  ghost predicate Aligned(p: string, pi: int, ni: int, star: int, mark: int)
    requires -1 <= star < pi <= |p|
  {
    star >= 0 ==> ni - mark == pi - star - 1 && forall k :: star < k < pi ==> p[k] != '*'
  }

  /** A match is still ahead: at the current positions, or after lengthening the last star's run. */
  ghost predicate Live(p: string, n: string, pi: int, ni: int, star: int, mark: int)
    requires Position(p, n, pi, ni, star, mark)
  {
    Matches(p[pi..], n[ni..]) || (star >= 0 && mark < |n| && Matches(p[star..], n[mark + 1..]))
  }

  /** A leading star absorbs what comes before a match. */
  lemma {:induction false} StarAbsorbs(p: string, n: string, i: int, from: int, j: int)
    requires 0 <= i < |p| && p[i] == '*' && 0 <= from <= j <= |n| && Matches(p[i..], n[j..])
    ensures Matches(p[i..], n[from..])
    decreases j - from
  {
    if from < j {
      StarAbsorbs(p, n, i, from + 1, j);
      AtHead(p, n, i, from);
    }
  }

  /** The run of a leading star ends somewhere. */
  lemma {:induction false} StarRun(p: string, n: string, i: int, j: int) returns (k: int)
    requires 0 <= i < |p| && p[i] == '*' && 0 <= j <= |n| && Matches(p[i..], n[j..])
    ensures j <= k <= |n| && Matches(p[i + 1..], n[k..])
    decreases |n| - j
  {
    assert p[i..][1..] == p[i + 1..];
    if Matches(p[i + 1..], n[j..]) {
      k := j;
    } else {
      assert n[j..][1..] == n[j + 1..];
      k := StarRun(p, n, i, j + 1);
    }
  }

  /** Plain pattern characters use up one character of the name each. */
  lemma {:induction false} PlainRun(p: string, n: string, i: int, pi: int, j: int)
    requires 0 <= i <= pi <= |p| && 0 <= j <= |n| && Matches(p[i..], n[j..])
    requires forall k :: i <= k < pi ==> p[k] != '*'
    ensures j + (pi - i) <= |n| && Matches(p[pi..], n[j + (pi - i)..])
    decreases pi - i
  {
    if i < pi {
      assert p[i..][1..] == p[i + 1..] && n[j..] != "" && n[j..][1..] == n[j + 1..];
      PlainRun(p, n, i + 1, pi, j + 1);
    }
  }

  /** With a star at hand again, any later match of the previous star is still reachable. */
  lemma LaterMatch(p: string, n: string, pi: int, ni: int, star: int, mark: int) returns (k: int)
    requires Position(p, n, pi, ni, star, mark) && Aligned(p, pi, ni, star, mark)
    requires star >= 0 && mark < |n| && Matches(p[star..], n[mark + 1..])
    ensures ni < k <= |n| && Matches(p[pi..], n[k..])
  {
    var j := StarRun(p, n, star, mark + 1);
    PlainRun(p, n, star + 1, pi, j);
    k := j + (pi - star - 1);
  }

  lemma {:induction false} ScanComplete(p: string, n: string, pi: int, ni: int, star: int, mark: int)
    requires Position(p, n, pi, ni, star, mark) && Aligned(p, pi, ni, star, mark)
    requires '*' !in n || '*' !in p
    requires Live(p, n, pi, ni, star, mark)
    ensures Scan(p, n, pi, ni, star, mark)
    decreases |n| - mark, |p| - star, |n| - ni
  {
    if !Matches(p[pi..], n[ni..]) {
      var k := LaterMatch(p, n, pi, ni, star, mark);
      if pi < |p| && p[pi] == '*' {
        StarAbsorbs(p, n, pi, ni, k);
      }
    }
    if ni == |n| {
      StarsMatchNothing(p[pi..]);
    } else if pi < |p| && (p[pi] == '?' || p[pi] == n[ni]) {
      assert p[pi] in p && n[ni] in n;
      AtHead(p, n, pi, ni);
      ScanComplete(p, n, pi + 1, ni + 1, star, mark);
    } else if pi < |p| && p[pi] == '*' {
      AtHead(p, n, pi, ni);
      ScanComplete(p, n, pi + 1, ni, pi, ni);
    } else {
      if pi < |p| {
        AtHead(p, n, pi, ni);
      }
      if mark + 1 < |n| {
        AtHead(p, n, star, mark + 1);
      } else {
        assert n[mark + 1..] == "" && p[star..][1..] == p[star + 1..];
      }
      ScanComplete(p, n, star + 1, mark + 1, star, mark + 1);
    }
  }

  lemma GlobComplete(p: string, n: string)
    requires '*' !in n || '*' !in p
    ensures Matches(p, n) ==> Accepts(p, n)
  {
    if Matches(p, n) {
      assert p[0..] == p && n[0..] == n;
      ScanComplete(p, n, 0, 0, -1, 0);
    }
  }

  // ---- a literal star in the name ----

  lemma {:induction false} ScanPrefix(p: string, n: string, k: int, i: int)
    requires 0 <= k <= i <= |p| && i <= |n| && p[..i] == n[..i]
    ensures Scan(p, n, k, k, -1, 0) == Scan(p, n, i, i, -1, 0)
    decreases i - k
  {
    if k < i {
      assert p[k] == p[..i][k] == n[..i][k] == n[k];
      ScanPrefix(p, n, k + 1, i);
    }
  }

  lemma {:induction false} MatchesPrefix(u: string, q: string, m: string)
    requires '*' !in u && Matches(q, m)
    ensures Matches(u + q, u + m)
  {
    if u == "" {
      assert u + q == q && u + m == m;
    } else {
      MatchesPrefix(u[1..], q, m);
      assert u[0] in u;
      assert (u + q)[1..] == u[1..] + q && (u + m)[1..] == u[1..] + m;
    }
  }

  lemma {:induction false} StarMatchesAll(n: string)
    ensures Matches("*", n)
  {
    StarsMatchNothing("*");
    if n != "" {
      StarMatchesAll(n[1..]);
    }
  }

  /** For a name with a star at `i`, a pattern that fits and is turned down. */
  function Missed(n: string, i: nat): string
    requires i < |n|
  {
    n[..i] + if i + 1 < |n| then "*" else "*?"
  }

  lemma MissedIsMissed(n: string, i: nat)
    requires i < |n| && n[i] == '*' && '*' !in n[..i]
    ensures Matches(Missed(n, i), n) && !Accepts(Missed(n, i), n)
  {
    var p := Missed(n, i);
    ScanPrefix(p, n, 0, i);
    assert n == n[..i] + n[i..];
    if i + 1 < |n| {
      StarMatchesAll(n[i..]);
      MatchesPrefix(n[..i], "*", n[i..]);
    } else {
      assert n[i..] == "*";
      assert Matches("*?"[1..], "*") by {
        assert "*?"[1..] == "?";
      }
      MatchesPrefix(n[..i], "*?", n[i..]);
      assert p[i + 1..] == "?" && p[i + 1..][0] == '?';
    }
  }

  lemma {:induction false} FirstStar(n: string) returns (i: nat)
    requires '*' in n
    ensures i < |n| && n[i] == '*' && '*' !in n[..i]
  {
    i := 0;
    while n[i] != '*'
      invariant i < |n| && '*' !in n[..i] && '*' in n[i..]
      decreases |n| - i
    {
      assert n[i..] == [n[i]] + n[i + 1..];
      i := i + 1;
    }
  }

  /** The matcher gives every pattern its meaning on exactly the names without a star. */
  lemma ExactOnNames(n: string)
    ensures (forall p :: Accepts(p, n) == Matches(p, n)) <==> '*' !in n
  {
    if '*' in n {
      var i := FirstStar(n);
      MissedIsMissed(n, i);
    } else {
      forall p ensures Accepts(p, n) == Matches(p, n) {
        GlobSound(p, n);
        GlobComplete(p, n);
      }
    }
  }
}
