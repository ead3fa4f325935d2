/** The Python `str` methods the normaliser and the endpoints rely on:
    `replace`, `find`, `split(sep)`, `split()`, `join` and `strip`. */
module Text {
  import opened Chars
  import opened Seqs
  import opened Results

  predicate HasPrefix(s: string, p: string) {
    |p| <= |s| && s[..|p|] == p
  }

  /** `target` occurs somewhere in `s`. */
  predicate Occurs(s: string, target: string) {
    exists k | 0 <= k <= |s| :: HasPrefix(s[k..], target)
  }

  /** `s.find(target)`: the first position where `target` occurs. */
  function IndexOf(s: string, target: string): (r: Option<nat>)
    ensures r.Some? ==> r.value + |target| <= |s| && HasPrefix(s[r.value..], target)
    ensures r.None? ==> !Occurs(s, target)
    decreases |s|
  {
    if HasPrefix(s, target) then Some(0)
    else if |s| == 0 then None
    else
      var rest := IndexOf(s[1..], target);
      assert forall k | 1 <= k <= |s| :: s[1..][k - 1..] == s[k..];
      if rest.None? then None else Some(rest.value + 1)
  }

  /** `find` reports the first occurrence: none starts earlier. */
  lemma {:induction false} IndexOfIsFirst(s: string, target: string, k: nat)
    requires IndexOf(s, target).Some? && k < IndexOf(s, target).value
    ensures !HasPrefix(s[k..], target)
    decreases |s|
  {
    if k == 0 {
      assert s[0..] == s;
    } else {
      assert s[1..][k - 1..] == s[k..];
      IndexOfIsFirst(s[1..], target, k - 1);
    }
  }

  /** `sep.join(parts)`. */
  function Join(parts: seq<string>, sep: string): string {
    if |parts| == 0 then ""
    else if |parts| == 1 then parts[0]
    else parts[0] + sep + Join(parts[1..], sep)
  }

  lemma HasPrefixOfSlice(s: string, i: nat, k: nat, p: string)
    requires k <= i <= |s|
    requires HasPrefix(s[..i][k..], p)
    ensures HasPrefix(s[k..], p)
  {
    assert s[..i][k..][..|p|] == s[k..][..|p|];
  }

  /** Nothing before the first occurrence contains the target. */
  lemma FirstMatchHeadIsClear(s: string, target: string, i: nat)
    requires |target| > 0 && IndexOf(s, target) == Some(i)
    ensures IndexOf(s[..i], target).None?
  {
    if IndexOf(s[..i], target).Some? {
      var k := IndexOf(s[..i], target).value;
      HasPrefixOfSlice(s, i, k, target);
      IndexOfIsFirst(s, target, k);
      assert false;
    }
  }

  /** The text around the first occurrence. */
  lemma FirstMatchSplits(s: string, target: string, i: nat)
    requires IndexOf(s, target) == Some(i)
    ensures s == s[..i] + target + s[i + |target|..]
  {
    assert HasPrefix(s[i..], target);
    SliceAround(s, i, |target|);
  }

  /** `find` reports position `k` exactly when the target occurs at `k`
      and at no earlier position. */
  lemma {:induction false} IndexOfAtFirst(s: string, target: string, k: nat)
    requires k <= |s| && HasPrefix(s[k..], target)
    requires forall j | 0 <= j < k :: !HasPrefix(s[j..], target)
    ensures IndexOf(s, target) == Some(k)
    decreases k
  {
    assert s[0..] == s;
    if k > 0 {
      assert s[1..][k - 1..] == s[k..];
      forall j | 0 <= j < k - 1 ensures !HasPrefix(s[1..][j..], target) {
        assert s[1..][j..] == s[j + 1..];
      }
      IndexOfAtFirst(s[1..], target, k - 1);
    }
  }

  /** The piece before the first occurrence, followed by the separator,
      has its first occurrence where the piece ends: no occurrence of
      `sep` straddles the cut. */
  lemma FirstMatchIsCut(s: string, sep: string, i: nat)
    requires |sep| > 0 && IndexOf(s, sep) == Some(i)
    ensures IndexOf(s[..i] + sep, sep) == Some(i)
  {
    var t := s[..i] + sep;
    FirstMatchSplits(s, sep, i);
    assert t == s[..i + |sep|];
    assert t[i..] == sep;
    forall j | 0 <= j < i ensures !HasPrefix(t[j..], sep) {
      if HasPrefix(t[j..], sep) {
        HasPrefixOfSlice(s, i + |sep|, j, sep);
        IndexOfIsFirst(s, sep, j);
        assert false;
      }
    }
    IndexOfAtFirst(t, sep, i);
  }

  /** `s.split(sep)` for a non-empty `sep` (an empty one raises): the text
      between consecutive occurrences found by `find`. */
  function SplitOn(s: string, sep: string): (parts: seq<string>)
    requires |sep| > 0
    ensures |parts| >= 1
    ensures Join(parts, sep) == s
    ensures forall i | 0 <= i < |parts| :: IndexOf(parts[i], sep).None?
    ensures forall i | 0 <= i < |parts| - 1 :: IndexOf(parts[i] + sep, sep) == Some(|parts[i]|)
    decreases |s|
  {
    match IndexOf(s, sep)
    case None => [s]
    case Some(i) =>
      var head := s[..i];
      var tail := SplitOn(s[i + |sep|..], sep);
      FirstMatchHeadIsClear(s, sep, i);
      FirstMatchSplits(s, sep, i);
      FirstMatchIsCut(s, sep, i);
      JoinCons(head, tail, sep);
      assert forall k | 1 <= k < |tail| + 1 :: ([head] + tail)[k] == tail[k - 1];
      [head] + tail
  }

  /** `s.replace(target, replacement)`: as CPython does it, find the
      leftmost occurrence, copy what precedes it, emit the replacement and
      carry on after the occurrence, so occurrences never overlap. An empty
      `target` matches at every position, so `replacement` is inserted before
      every character and at the end. */
  function ReplaceAll(s: string, target: string, replacement: string): string
    decreases |s|
  {
    if |target| == 0 then
      if |s| == 0 then replacement else replacement + [s[0]] + ReplaceAll(s[1..], target, replacement)
    else
      match IndexOf(s, target)
      case None => s
      case Some(i) => s[..i] + replacement + ReplaceAll(s[i + |target|..], target, replacement)
  }

  /** Replacing a string that does not occur changes nothing. */
  lemma ReplaceAllAbsent(s: string, target: string, replacement: string)
    requires |target| > 0 && !Occurs(s, target)
    ensures ReplaceAll(s, target, replacement) == s
  {
  }

  /** Python's identity `s.replace(t, u) == u.join(s.split(t))` for a
      non-empty `t`: every occurrence that `split` finds is replaced, and
      nothing else changes. */
  lemma {:induction false} ReplaceAllIsJoinOfSplit(s: string, target: string, replacement: string)
    requires |target| > 0
    ensures ReplaceAll(s, target, replacement) == Join(SplitOn(s, target), replacement)
    decreases |s|
  {
    match IndexOf(s, target)
    case None =>
    case Some(i) =>
      var rest := s[i + |target|..];
      ReplaceAllIsJoinOfSplit(rest, target, replacement);
      JoinCons(s[..i], SplitOn(rest, target), replacement);
  }

  /** A token of `str.split()`: non-empty, no whitespace. */
  predicate IsToken(t: string) {
    |t| > 0 && forall i | 0 <= i < |t| :: NotSpace(t[i])
  }

  /** `s.split()`: the maximal runs of non-whitespace characters. */
  function Split(s: string): (tokens: seq<string>)
    ensures forall i | 0 <= i < |tokens| :: IsToken(tokens[i])
    ensures Concat(tokens) == Filter(s, NotSpace)
    decreases |s|
  {
    if |s| == 0 then []
    else if IsSpace(s[0]) then Split(s[1..])
    else
      var n := Span(s, NotSpace);
      var rest := Split(s[n..]);
      assert s == s[..n] + s[n..];
      FilterAppend(s[..n], s[n..], NotSpace);
      FilterKeepsAll(s[..n], NotSpace);
      assert ([s[..n]] + rest)[1..] == rest;
      [s[..n]] + rest
  }

  /** `s.lstrip()` */
  function TrimStart(s: string): (r: string)
    ensures |r| <= |s| && r == s[|s| - |r|..]
    ensures forall i | 0 <= i < |s| - |r| :: IsSpace(s[i])
    ensures |r| == 0 || NotSpace(r[0])
    decreases |s|
  {
    if |s| > 0 && IsSpace(s[0]) then TrimStart(s[1..]) else s
  }

  /** `s.rstrip()` */
  function TrimEnd(s: string): (r: string)
    ensures |r| <= |s| && r == s[..|r|]
    ensures forall i | |r| <= i < |s| :: IsSpace(s[i])
    ensures |r| == 0 || NotSpace(r[|r| - 1])
    decreases |s|
  {
    if |s| > 0 && IsSpace(s[|s| - 1]) then TrimEnd(s[..|s| - 1]) else s
  }

  /** `s.strip()`: drops leading and trailing whitespace. */
  function Strip(s: string): (r: string)
    ensures |r| == 0 || (NotSpace(r[0]) && NotSpace(r[|r| - 1]))
  {
    TrimEnd(TrimStart(s))
  }

  /** Every whitespace character is a single ' ' with a non-whitespace
      character on each side: no leading, trailing or doubled spaces. */
  predicate SingleSpaced(s: string) {
    forall i | 0 <= i < |s| :: IsSpace(s[i]) ==> s[i] == ' ' && 0 < i < |s| - 1 && NotSpace(s[i + 1])
  }

  /** A run of non-whitespace followed by whitespace (or nothing) is
      exactly the leading run. */
  lemma {:induction false} SpanOfRun(t: string, u: string)
    requires forall i | 0 <= i < |t| :: NotSpace(t[i])
    requires |u| == 0 || IsSpace(u[0])
    ensures Span(t + u, NotSpace) == |t|
    decreases |t|
  {
    if |t| > 0 {
      assert (t + u)[1..] == t[1..] + u;
      SpanOfRun(t[1..], u);
    } else {
      assert t + u == u;
    }
  }

  /** Joining tokens with single spaces gives a single-spaced string that
      starts with the first token's first character. */
  lemma {:induction false} JoinTokensSingleSpaced(ts: seq<string>)
    requires forall i | 0 <= i < |ts| :: IsToken(ts[i])
    ensures SingleSpaced(Join(ts, " "))
    ensures |ts| > 0 ==> |Join(ts, " ")| > 0
    decreases |ts|
  {
    if |ts| == 1 {
    } else if |ts| > 1 {
      var t := ts[0];
      var rest := Join(ts[1..], " ");
      JoinTokensSingleSpaced(ts[1..]);
      var s := t + " " + rest;
      assert Join(ts, " ") == s;
      forall i | 0 <= i < |s| && IsSpace(s[i])
        ensures s[i] == ' ' && 0 < i < |s| - 1 && NotSpace(s[i + 1])
      {
        if i < |t| {
          assert false;
        } else if i > |t| {
          assert s[i] == rest[i - |t| - 1];
          assert s[i + 1] == rest[i - |t|];
        } else {
          assert s[i + 1] == rest[0];
        }
      }
    }
  }

  /** Round trip: splitting tokens joined by single spaces gives the tokens
      back. */
  lemma {:induction false} SplitJoin(ts: seq<string>)
    requires forall i | 0 <= i < |ts| :: IsToken(ts[i])
    ensures Split(Join(ts, " ")) == ts
    decreases |ts|
  {
    if |ts| == 1 {
      var t := ts[0];
      SpanOfRun(t, "");
      assert t + "" == t;
      assert t[..|t|] == t;
    } else if |ts| > 1 {
      var t := ts[0];
      var rest := Join(ts[1..], " ");
      var s := t + " " + rest;
      assert Join(ts, " ") == s;
      assert s == t + (" " + rest);
      SpanOfRun(t, " " + rest);
      assert s[..|t|] == t;
      assert s[|t|..] == " " + rest;
      assert (" " + rest)[1..] == rest;
      SplitJoin(ts[1..]);
      assert Split(s) == [t] + Split(" " + rest);
      assert Split(" " + rest) == Split(rest);
    }
  }

  lemma SingleSpacedAfterSpace(s: string, n: nat)
    requires SingleSpaced(s) && n < |s| && IsSpace(s[n])
    ensures n + 1 < |s| && NotSpace(s[n + 1]) && s[n] == ' '
    ensures SingleSpaced(s[n + 1..])
  {
    var rest := s[n + 1..];
    forall j | 0 <= j < |rest| && IsSpace(rest[j])
      ensures rest[j] == ' ' && 0 < j < |rest| - 1 && NotSpace(rest[j + 1])
    {
      assert rest[j] == s[n + 1 + j];
      if j + 1 < |rest| {
        assert rest[j + 1] == s[n + 2 + j];
      }
    }
  }

  lemma SplitOfRunStart(s: string)
    requires |s| > 0 && NotSpace(s[0])
    ensures Split(s) == [s[..Span(s, NotSpace)]] + Split(s[Span(s, NotSpace)..])
  {
  }

  /** `str.split()` takes a token up to the next whitespace: a token
      followed by whitespace or the end is the first piece. */
  lemma SplitTokenFirst(w: string, q: string)
    requires IsToken(w)
    requires |q| == 0 || IsSpace(q[0])
    ensures Split(w + q) == [w] + Split(q)
  {
    SpanOfRun(w, q);
    assert (w + q)[..|w|] == w;
    assert (w + q)[|w|..] == q;
  }

  /** Whitespace in front of the text separates nothing and is dropped. */
  lemma SplitSkipsSpace(c: char, q: string)
    requires IsSpace(c)
    ensures Split([c] + q) == Split(q)
  {
    assert ([c] + q)[1..] == q;
  }

  lemma JoinCons(t: string, ts: seq<string>, sep: string)
    requires |ts| > 0
    ensures Join([t] + ts, sep) == t + sep + Join(ts, sep)
  {
    assert ([t] + ts)[1..] == ts;
  }

  lemma SpaceBetween(s: string, n: nat)
    requires n < |s| && s[n] == ' '
    ensures s[..n] + " " + s[n + 1..] == s
  {
  }

  /** Round trip the other way: a single-spaced string is its own tokens
      joined by single spaces. */
  lemma {:induction false} JoinSplit(s: string)
    requires SingleSpaced(s)
    ensures Join(Split(s), " ") == s
    decreases |s|
  {
    if |s| > 0 {
      var n := Span(s, NotSpace);
      SplitOfRunStart(s);
      if n == |s| {
        assert s[..n] == s;
        assert Split(s[n..]) == [];
      } else {
        SingleSpacedAfterSpace(s, n);
        var rest := s[n + 1..];
        assert s[n..][1..] == rest;
        assert Split(s[n..]) == Split(rest);
        JoinSplit(rest);
        assert rest[0] == s[n + 1];
        SplitOfRunStart(rest);
        JoinCons(s[..n], Split(rest), " ");
        SpaceBetween(s, n);
      }
    }
  }

  /** Leading whitespace does not change the tokens. */
  lemma {:induction false} SplitDropsLeading(s: string, k: nat)
    requires k <= |s|
    requires forall i | 0 <= i < k :: IsSpace(s[i])
    ensures Split(s[k..]) == Split(s)
    decreases k
  {
    if k == 0 {
      assert s[0..] == s;
    } else {
      assert s[1..][k - 1..] == s[k..];
      SplitDropsLeading(s[1..], k - 1);
    }
  }

  /** A string of whitespace has no tokens. */
  lemma SplitAllSpace(s: string)
    requires forall i | 0 <= i < |s| :: IsSpace(s[i])
    ensures Split(s) == []
  {
    SplitDropsLeading(s, |s|);
    assert s[|s|..] == [];
  }

  /** Cutting after the first run keeps that run as the first token. */
  lemma SplitPrefixAfterRun(s: string, k: nat)
    requires 0 < k < |s| && NotSpace(s[0]) && IsSpace(s[k])
    ensures Span(s, NotSpace) <= k
    ensures var n := Span(s, NotSpace); Split(s[..k]) == [s[..n]] + Split(s[n..][..k - n])
  {
    var n := Span(s, NotSpace);
    SpanOfPrefix(s, NotSpace, k);
    SplitOfRunStart(s[..k]);
    SliceOfPrefix(s, n, k);
  }

  /** Trailing whitespace does not change the tokens. */
  lemma {:induction false} SplitDropsTrailing(s: string, k: nat)
    requires k <= |s|
    requires forall i | k <= i < |s| :: IsSpace(s[i])
    ensures Split(s[..k]) == Split(s)
    decreases |s|
  {
    if k == |s| {
      assert s[..k] == s;
    } else if k == 0 {
      SplitAllSpace(s);
      assert s[..0] == [];
    } else if IsSpace(s[0]) {
      assert s[..k][1..] == s[1..][..k - 1];
      SplitDropsTrailing(s[1..], k - 1);
    } else {
      var n := Span(s, NotSpace);
      assert IsSpace(s[k]);
      SplitPrefixAfterRun(s, k);
      SplitOfRunStart(s);
      SplitDropsTrailing(s[n..], k - n);
    }
  }

  lemma SplitTrimStart(s: string)
    ensures Split(TrimStart(s)) == Split(s)
  {
    SplitDropsLeading(s, |s| - |TrimStart(s)|);
  }

  lemma SplitTrimEnd(s: string)
    ensures Split(TrimEnd(s)) == Split(s)
  {
    SplitDropsTrailing(s, |TrimEnd(s)|);
  }

  /** `s.strip().split() == s.split()` */
  lemma SplitStrip(s: string)
    ensures Split(Strip(s)) == Split(s)
  {
    SplitTrimStart(s);
    SplitTrimEnd(TrimStart(s));
  }

  /** Stripping a single-spaced string changes nothing. */
  lemma StripSingleSpaced(s: string)
    requires SingleSpaced(s)
    ensures Strip(s) == s
  {
    if |s| > 0 {
      assert NotSpace(s[0]) && NotSpace(s[|s| - 1]);
    }
  }

  /** One step of `SplitAppend` where `p` starts with whitespace. */
  lemma SplitAppendSpaceStep(p: string, q: string)
    requires |p| > 0 && IsSpace(p[0]) && IsSpace(p[|p| - 1])
    ensures |p[1..]| == 0 || IsSpace(p[1..][|p| - 2])
    ensures Split(p + q) == Split(p[1..] + q)
    ensures Split(p) == Split(p[1..])
  {
    assert |p| == 1 || p[1..][|p| - 2] == p[|p| - 1];
    assert (p + q)[0] == p[0];
    assert (p + q)[1..] == p[1..] + q;
  }

  /** One step of `SplitAppend` where `p` starts with a token: the token
      ends inside `p`, at the whitespace `p` ends in. */
  lemma SplitAppendTokenStep(p: string, q: string)
    requires |p| > 0 && NotSpace(p[0]) && IsSpace(p[|p| - 1])
    ensures Span(p, NotSpace) < |p|
    ensures IsSpace(p[Span(p, NotSpace)..][|p| - Span(p, NotSpace) - 1])
    ensures Split(p + q) == [p[..Span(p, NotSpace)]] + Split(p[Span(p, NotSpace)..] + q)
    ensures Split(p) == [p[..Span(p, NotSpace)]] + Split(p[Span(p, NotSpace)..])
  {
    var n := Span(p, NotSpace);
    assert !NotSpace(p[|p| - 1]);
    SpanAppend(p, q, NotSpace);
    assert (p + q)[0] == p[0];
    assert (p + q)[..n] == p[..n];
    assert (p + q)[n..] == p[n..] + q;
    assert p[n..][|p| - n - 1] == p[|p| - 1];
    SplitOfRunStart(p);
    SplitOfRunStart(p + q);
  }

  /** Text that is empty or ends in whitespace splits independently of
      what follows it: no token crosses whitespace. */
  lemma {:induction false} SplitAppend(p: string, q: string)
    requires |p| == 0 || IsSpace(p[|p| - 1])
    ensures Split(p + q) == Split(p) + Split(q)
    decreases |p|, 1
  {
    if |p| == 0 {
      assert p + q == q;
    } else if IsSpace(p[0]) {
      SplitAppendSpaceCase(p, q);
    } else {
      SplitAppendTokenCase(p, q);
    }
  }

  lemma {:induction false} SplitAppendSpaceCase(p: string, q: string)
    requires |p| > 0 && IsSpace(p[0]) && IsSpace(p[|p| - 1])
    ensures Split(p + q) == Split(p) + Split(q)
    decreases |p|, 0
  {
    SplitAppendSpaceStep(p, q);
    SplitAppend(p[1..], q);
  }

  lemma {:induction false} SplitAppendTokenCase(p: string, q: string)
    requires |p| > 0 && NotSpace(p[0]) && IsSpace(p[|p| - 1])
    ensures Split(p + q) == Split(p) + Split(q)
    decreases |p|, 0
  {
    SplitAppendTokenStep(p, q);
    var n := Span(p, NotSpace);
    SplitAppend(p[n..], q);
    AppendAssoc([p[..n]], Split(p[n..]), Split(q));
  }

  /** An overlapping separator is cut at its leftmost occurrence. */
  lemma SplitOnOverlapExample()
    ensures SplitOn("aaa", "aa") == ["", "a"]
  {
  }

  /** Runs of whitespace separate tokens and never produce empty ones. */
  lemma SplitRunsExample()
    ensures Split("a  b") == ["a", "b"]
  {
  }
}
