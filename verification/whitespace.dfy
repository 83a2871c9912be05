/** Rewriting of whitespace runs.  Every `re.sub` of the cleaning code whose
    pattern consists of whitespace classes (`\s+`, `[ \t]+`,
    `\n\s*\n\s*\n+`) only ever matches inside a maximal run of whitespace, so
    each is modelled as a rewrite of the runs one by one. */
module Whitespace {
  import opened Text
  import Seqs

  predicate NotSpace(c: char) { !IsSpace(c) }

  /** The non-whitespace characters of `s`, in order: what a whitespace
      normalisation must keep. */
  function NonSpace(s: string): string {
    Seqs.Filter(s, NotSpace)
  }

  /** Replaces every maximal whitespace run `w` of `s` by `f(w)`. */
  function MapSpaceRuns(s: string, f: string -> string): string
    decreases |s|
  {
    if s == [] then []
    else if !IsSpace(s[0]) then [s[0]] + MapSpaceRuns(s[1..], f)
    else
      var n := LeadLen(s);
      f(s[..n]) + MapSpaceRuns(s[n..], f)
  }

  /** Every maximal whitespace run of `s` satisfies `ok`. */
  predicate RunsOk(s: string, ok: string -> bool)
    decreases |s|
  {
    if s == [] then true
    else if !IsSpace(s[0]) then RunsOk(s[1..], ok)
    else
      var n := LeadLen(s);
      ok(s[..n]) && RunsOk(s[n..], ok)
  }

  /** `f` turns a whitespace run into a non-empty whitespace run. */
  ghost predicate KeepsRuns(f: string -> string) {
    forall w :: w != [] && AllSpace(w) ==> f(w) != [] && AllSpace(f(w))
  }

  lemma MapStartsWith(s: string, f: string -> string)
    requires s != [] && !IsSpace(s[0])
    ensures MapSpaceRuns(s, f) != [] && MapSpaceRuns(s, f)[0] == s[0]
  {
  }

  /** A maximal run followed by the rest of the text. */
  lemma RunsOkCons(w: string, rest: string, ok: string -> bool)
    requires w != [] && AllSpace(w)
    requires rest == [] || !IsSpace(rest[0])
    ensures RunsOk(w + rest, ok) == (ok(w) && RunsOk(rest, ok))
  {
    LeadLenPrefix(w, rest);
    assert (w + rest)[..|w|] == w && (w + rest)[|w|..] == rest;
  }

  lemma RunsOkCharCons(c: char, rest: string, ok: string -> bool)
    requires !IsSpace(c)
    ensures RunsOk([c] + rest, ok) == RunsOk(rest, ok)
  {
    assert ([c] + rest)[1..] == rest;
  }

  /** Rewriting runs into runs that satisfy `ok` gives a text whose runs all satisfy `ok`. */
  lemma {:induction false} MapRunsEstablish(s: string, f: string -> string, ok: string -> bool)
    requires KeepsRuns(f)
    requires forall w :: w != [] && AllSpace(w) ==> ok(f(w))
    ensures RunsOk(MapSpaceRuns(s, f), ok)
    decreases |s|
  {
    if s == [] {
    } else if !IsSpace(s[0]) {
      MapRunsEstablish(s[1..], f, ok);
      RunsOkCharCons(s[0], MapSpaceRuns(s[1..], f), ok);
    } else {
      var n := LeadLen(s);
      MapRunsEstablish(s[n..], f, ok);
      if n < |s| {
        MapStartsWith(s[n..], f);
      }
      RunsOkCons(f(s[..n]), MapSpaceRuns(s[n..], f), ok);
    }
  }

  /** Rewriting runs with a map that preserves `ok` keeps every run `ok`. */
  lemma {:induction false} MapRunsPreserve(s: string, f: string -> string, ok: string -> bool)
    requires KeepsRuns(f)
    requires forall w :: w != [] && AllSpace(w) && ok(w) ==> ok(f(w))
    requires RunsOk(s, ok)
    ensures RunsOk(MapSpaceRuns(s, f), ok)
    decreases |s|
  {
    if s == [] {
    } else if !IsSpace(s[0]) {
      MapRunsPreserve(s[1..], f, ok);
      RunsOkCharCons(s[0], MapSpaceRuns(s[1..], f), ok);
    } else {
      var n := LeadLen(s);
      MapRunsPreserve(s[n..], f, ok);
      if n < |s| {
        MapStartsWith(s[n..], f);
      }
      RunsOkCons(f(s[..n]), MapSpaceRuns(s[n..], f), ok);
    }
  }

  lemma NonSpaceAppend(a: string, b: string)
    ensures NonSpace(a + b) == NonSpace(a) + NonSpace(b)
  {
    Seqs.FilterAppend(a, b, NotSpace);
  }

  lemma NonSpaceOfSpace(w: string)
    requires AllSpace(w)
    ensures NonSpace(w) == []
  {
    Seqs.FilterNone(w, NotSpace);
  }

  lemma NonSpaceStep(a: string, b: string, a': string, b': string)
    requires NonSpace(a') == NonSpace(a) && NonSpace(b') == NonSpace(b)
    ensures NonSpace(a' + b') == NonSpace(a + b)
  {
    NonSpaceAppend(a, b);
    NonSpaceAppend(a', b');
  }

  /** Rewriting whitespace runs into whitespace keeps every other character, in order. */
  lemma {:induction false} MapRunsNonSpace(s: string, f: string -> string)
    requires KeepsRuns(f)
    ensures NonSpace(MapSpaceRuns(s, f)) == NonSpace(s)
    decreases |s|
  {
    if s == [] {
    } else if !IsSpace(s[0]) {
      MapRunsNonSpace(s[1..], f);
      NonSpaceCharStep(s, f);
    } else {
      var n := LeadLen(s);
      assert s[..n] != [] && AllSpace(s[..n]);
      MapRunsNonSpace(s[n..], f);
      NonSpaceRunStep(s, f, n);
    }
  }

  lemma NonSpaceCharStep(s: string, f: string -> string)
    requires s != [] && !IsSpace(s[0])
    requires NonSpace(MapSpaceRuns(s[1..], f)) == NonSpace(s[1..])
    ensures NonSpace(MapSpaceRuns(s, f)) == NonSpace(s)
  {
    assert MapSpaceRuns(s, f) == [s[0]] + MapSpaceRuns(s[1..], f);
    assert s == [s[0]] + s[1..];
    NonSpaceStep([s[0]], s[1..], [s[0]], MapSpaceRuns(s[1..], f));
  }

  lemma NonSpaceRunStep(s: string, f: string -> string, n: nat)
    requires s != [] && IsSpace(s[0]) && n == LeadLen(s)
    requires AllSpace(f(s[..n]))
    requires NonSpace(MapSpaceRuns(s[n..], f)) == NonSpace(s[n..])
    ensures NonSpace(MapSpaceRuns(s, f)) == NonSpace(s)
  {
    var w, rest := s[..n], s[n..];
    assert MapSpaceRuns(s, f) == f(w) + MapSpaceRuns(rest, f);
    NonSpaceAppend(f(w), MapSpaceRuns(rest, f));
    NonSpaceOfSpace(f(w));
    NonSpaceSplit(s, n);
    NonSpaceOfSpace(w);
  }

  lemma NonSpaceSplit(s: string, n: nat)
    requires n <= |s|
    ensures NonSpace(s) == NonSpace(s[..n]) + NonSpace(s[n..])
  {
    assert s == s[..n] + s[n..];
    NonSpaceAppend(s[..n], s[n..]);
  }

  /** Every character satisfies `p` when the kept characters and the rewritten runs do. */
  lemma {:induction false} MapRunsChars(s: string, f: string -> string, p: char -> bool)
    requires forall i | 0 <= i < |s| :: !IsSpace(s[i]) ==> p(s[i])
    requires forall w, i | 0 <= i < |f(w)| :: p(f(w)[i])
    ensures forall i | 0 <= i < |MapSpaceRuns(s, f)| :: p(MapSpaceRuns(s, f)[i])
    decreases |s|
  {
    if s == [] {
    } else if !IsSpace(s[0]) {
      MapRunsChars(s[1..], f, p);
    } else {
      var n := LeadLen(s);
      MapRunsChars(s[n..], f, p);
    }
  }

  /** A map that leaves every run as it is leaves the text as it is. */
  lemma {:induction false} MapRunsIdentity(s: string, f: string -> string)
    requires forall w :: w != [] && AllSpace(w) && '\n' !in w ==> f(w) == w
    requires '\n' !in s
    ensures MapSpaceRuns(s, f) == s
    decreases |s|
  {
    if s == [] {
    } else if !IsSpace(s[0]) {
      assert '\n' !in s[1..];
      MapRunsIdentity(s[1..], f);
      assert [s[0]] + s[1..] == s;
    } else {
      var n := LeadLen(s);
      assert '\n' !in s[..n] && '\n' !in s[n..];
      assert s[..n] != [] && AllSpace(s[..n]);
      MapRunsIdentity(s[n..], f);
      IdentityRunStep(s, f, n);
    }
  }

  lemma IdentityRunStep(s: string, f: string -> string, n: nat)
    requires s != [] && IsSpace(s[0]) && n == LeadLen(s)
    requires f(s[..n]) == s[..n] && MapSpaceRuns(s[n..], f) == s[n..]
    ensures MapSpaceRuns(s, f) == s
  {
    assert MapSpaceRuns(s, f) == s[..n] + s[n..];
    assert s[..n] + s[n..] == s;
  }

  // ---------------------------------------------------------------- strip and runs

  lemma {:induction false} RunsOkDropFront(s: string, ok: string -> bool)
    requires RunsOk(s, ok)
    ensures RunsOk(TrimStart(s), ok)
  {
    if s != [] && IsSpace(s[0]) {
      assert TrimStart(s) == s[LeadLen(s)..];
    }
  }

  /** Dropping the trailing run keeps the other runs. */
  lemma {:induction false} RunsOkDropBack(s: string, k: nat, ok: string -> bool)
    requires RunsOk(s, ok)
    requires k <= |s| && AllSpace(s[k..])
    requires k == 0 || !IsSpace(s[k - 1])
    ensures RunsOk(s[..k], ok)
    decreases |s|
  {
    if s == [] || k == 0 {
    } else if !IsSpace(s[0]) {
      RunsOkDropBack(s[1..], k - 1, ok);
      assert s[1..][k - 1..] == s[k..];
      RunsOkCharCons(s[0], s[1..][..k - 1], ok);
      assert [s[0]] + s[1..][..k - 1] == s[..k];
    } else {
      var n := LeadLen(s);
      if n >= k {
        assert false;
      } else {
        assert s[n..][k - n..] == s[k..];
        RunsOkDropBack(s[n..], k - n, ok);
        assert s[..k] == s[..n] + s[n..][..k - n];
        RunsOkCons(s[..n], s[n..][..k - n], ok);
      }
    }
  }

  /** `strip` keeps every inner run. */
  lemma StripRunsOk(s: string, ok: string -> bool)
    requires RunsOk(s, ok)
    ensures RunsOk(Strip(s), ok)
  {
    var t := TrimStart(s);
    RunsOkDropFront(s, ok);
    var r := Strip(s);
    var a := LeadLen(s);
    assert t == s[a..];
    assert r == t[..|r|];
    if r != [] {
      assert AllSpace(t[|r|..]);
      RunsOkDropBack(t, |r|, ok);
    }
  }

  /** `strip` removes whitespace only. */
  lemma StripNonSpace(s: string)
    ensures NonSpace(Strip(s)) == NonSpace(s)
  {
    var r := Strip(s);
    var a := LeadLen(s);
    var b := a + |r|;
    var front, back := s[..a], s[b..];
    assert AllSpace(front);
    assert AllSpace(back) by {
      forall i | 0 <= i < |back| ensures IsSpace(back[i]) {
        assert back[i] == s[b + i];
      }
    }
    assert s == front + r + back;
    NonSpaceAppend(front + r, back);
    NonSpaceAppend(front, r);
    NonSpaceOfSpace(front);
    NonSpaceOfSpace(back);
  }

  // ---------------------------------------------------------------- the two section-cleaning rewrites

  /** The part of `s` before the first `c`. */
  function BeforeFirst(s: string, c: char): (r: string)
    ensures |r| <= |s| && c !in r && r == s[..|r|]
    ensures c in s ==> |r| < |s| && s[|r|] == c
  {
    if s == [] || s[0] == c then [] else [s[0]] + BeforeFirst(s[1..], c)
  }

  /** The part of `s` after the last `c`. */
  function AfterLast(s: string, c: char): (r: string)
    ensures c !in r && |r| <= |s| && r == s[|s| - |r|..]
  {
    if s == [] || s[|s| - 1] == c then [] else AfterLast(s[..|s| - 1], c) + [s[|s| - 1]]
  }

  /** `re.sub(r'\n\s*\n\s*\n+', '\n\n', ·)` on one whitespace run: a run holding three or
      more newlines loses everything from its first to its last newline, which becomes
      one blank line; leading and trailing blanks of the run stay. */
  function CollapseBreaks(w: string): string {
    if Count(w, '\n') >= 3 then BeforeFirst(w, '\n') + "\n\n" + AfterLast(w, '\n') else w
  }

  predicate AtMostTwoBreaks(w: string) { Count(w, '\n') <= 2 }

  lemma CollapseBreaksRun(w: string)
    requires w != [] && AllSpace(w)
    ensures CollapseBreaks(w) != [] && AllSpace(CollapseBreaks(w))
    ensures AtMostTwoBreaks(CollapseBreaks(w))
  {
    if Count(w, '\n') >= 3 {
      var a := BeforeFirst(w, '\n');
      var b := AfterLast(w, '\n');
      CollapsedSpace(w, a, b);
      CollapsedBreaks(a, b);
    }
  }

  /** The kept blanks around the new blank line are blanks of the run. */
  lemma CollapsedSpace(w: string, a: string, b: string)
    requires AllSpace(w) && |a| <= |w| && a == w[..|a|] && |b| <= |w| && b == w[|w| - |b|..]
    ensures AllSpace(a + "\n\n" + b)
  {
    var r := a + "\n\n" + b;
    forall i | 0 <= i < |r| ensures IsSpace(r[i]) {
      if i < |a| {
        assert r[i] == w[i];
      } else if i >= |a| + 2 {
        assert r[i] == b[i - |a| - 2] == w[|w| - |b| + i - |a| - 2];
      }
    }
  }

  /** Only the two newlines of the blank line remain. */
  lemma CollapsedBreaks(a: string, b: string)
    requires '\n' !in a && '\n' !in b
    ensures Count(a + "\n\n" + b, '\n') == 2
  {
    CountAppend(a + "\n\n", b, '\n');
    CountAppend(a, "\n\n", '\n');
    CountAbsent(a, '\n');
    CountAbsent(b, '\n');
    assert Count("\n\n", '\n') == 2;
  }

  lemma CollapseBreaksKeepsRuns()
    ensures KeepsRuns(CollapseBreaks)
    ensures forall w :: w != [] && AllSpace(w) ==> AtMostTwoBreaks(CollapseBreaks(w))
  {
    forall w | w != [] && AllSpace(w)
      ensures CollapseBreaks(w) != [] && AllSpace(CollapseBreaks(w)) && AtMostTwoBreaks(CollapseBreaks(w))
    {
      CollapseBreaksRun(w);
    }
  }

  /** Length of the leading run of spaces and tabs. */
  function BlankLen(s: string): (n: nat)
    ensures n <= |s|
    ensures forall i | 0 <= i < n :: IsBlank(s[i])
    ensures n < |s| ==> !IsBlank(s[n])
  {
    if s != [] && IsBlank(s[0]) then 1 + BlankLen(s[1..]) else 0
  }

  predicate NoDoubleBlank(s: string) {
    forall i | 0 <= i < |s| - 1 :: !(IsBlank(s[i]) && IsBlank(s[i + 1]))
  }

  /** `re.sub(r'[ \t]+', ' ', s)` */
  function CollapseBlanks(s: string): (r: string)
    decreases |s|
  {
    if s == [] then []
    else if IsBlank(s[0]) then [' '] + CollapseBlanks(s[BlankLen(s)..])
    else [s[0]] + CollapseBlanks(s[1..])
  }

  /** After collapsing, no two blanks are adjacent. */
  lemma {:induction false} CollapseBlanksNoDouble(s: string)
    ensures NoDoubleBlank(CollapseBlanks(s))
    ensures s != [] ==> CollapseBlanks(s) != [] && CollapseBlanks(s)[0] == (if IsBlank(s[0]) then ' ' else s[0])
    decreases |s|
  {
    if s != [] {
      var rest := if IsBlank(s[0]) then s[BlankLen(s)..] else s[1..];
      CollapseBlanksNoDouble(rest);
      var c := if IsBlank(s[0]) then ' ' else s[0];
      var t := CollapseBlanks(rest);
      assert CollapseBlanks(s) == [c] + t;
      assert t != [] && IsBlank(c) ==> !IsBlank(t[0]);
      forall i | 0 <= i < |[c] + t| - 1
        ensures !(IsBlank(([c] + t)[i]) && IsBlank(([c] + t)[i + 1]))
      {
        if i > 0 {
          assert ([c] + t)[i] == t[i - 1] && ([c] + t)[i + 1] == t[i];
        }
      }
    }
  }

  lemma BlankLenAppend(a: string, b: string)
    requires b == [] || !IsBlank(b[0])
    ensures BlankLen(a) < |a| ==> BlankLen(a + b) == BlankLen(a)
    ensures BlankLen(a) == |a| ==> BlankLen(a + b) == |a|
  {
    assert forall i | 0 <= i < |a| :: (a + b)[i] == a[i];
    assert |a| < |a + b| ==> (a + b)[|a|] == b[0];
  }

  /** `[ \t]+` cannot match across a character that is not a blank. */
  lemma {:induction false} CollapseBlanksAppend(a: string, b: string)
    requires b == [] || !IsBlank(b[0])
    ensures CollapseBlanks(a + b) == CollapseBlanks(a) + CollapseBlanks(b)
    decreases |a|, 1
  {
    if a == [] {
      assert a + b == b;
    } else if IsBlank(a[0]) {
      CollapseBlanksAppendRun(a, b);
    } else {
      var ab, rest := a + b, a[1..];
      assert ab[0] == a[0] && ab[1..] == rest + b;
      assert CollapseBlanks(ab) == [a[0]] + CollapseBlanks(rest + b);
      assert CollapseBlanks(a) == [a[0]] + CollapseBlanks(rest);
      CollapseBlanksAppend(rest, b);
      Seqs.AppendAssoc([a[0]], CollapseBlanks(rest), CollapseBlanks(b));
    }
  }

  lemma {:induction false} CollapseBlanksAppendRun(a: string, b: string)
    requires a != [] && IsBlank(a[0])
    requires b == [] || !IsBlank(b[0])
    ensures CollapseBlanks(a + b) == CollapseBlanks(a) + CollapseBlanks(b)
    decreases |a|, 0
  {
    var n := BlankLen(a);
    var rest := a[n..];
    assert BlankLen(a + b) == n by {
      BlankLenAppend(a, b);
    }
    assert (a + b)[n..] == rest + b;
    CollapseBlanksRunStep(a + b, n, rest + b);
    CollapseBlanksRunStep(a, n, rest);
    CollapseBlanksAppend(rest, b);
    Seqs.AppendAssoc([' '], CollapseBlanks(rest), CollapseBlanks(b));
  }

  lemma CollapseBlanksRunStep(s: string, n: nat, rest: string)
    requires s != [] && IsBlank(s[0]) && n == BlankLen(s) && rest == s[n..]
    ensures CollapseBlanks(s) == [' '] + CollapseBlanks(rest)
  {
  }

  /** Collapsing blank runs over the whole text is collapsing them run by run. */
  lemma {:induction false} CollapseBlanksByRuns(s: string)
    ensures CollapseBlanks(s) == MapSpaceRuns(s, CollapseBlanks)
    decreases |s|
  {
    if s == [] {
    } else if !IsSpace(s[0]) {
      CollapseBlanksByRuns(s[1..]);
      assert !IsBlank(s[0]);
    } else {
      var n := LeadLen(s);
      CollapseBlanksByRuns(s[n..]);
      assert s == s[..n] + s[n..];
      CollapseBlanksAppend(s[..n], s[n..]);
    }
  }

  lemma {:induction false} CollapseBlanksSpace(w: string)
    requires AllSpace(w)
    ensures AllSpace(CollapseBlanks(w)) && Count(CollapseBlanks(w), '\n') == Count(w, '\n')
    decreases |w|
  {
    if w == [] {
    } else if IsBlank(w[0]) {
      var n := BlankLen(w);
      CollapseBlanksSpace(w[n..]);
      assert w == w[..n] + w[n..];
      CountAppend(w[..n], w[n..], '\n');
      CountAbsent(w[..n], '\n');
      CountAppend([' '], CollapseBlanks(w[n..]), '\n');
    } else {
      CollapseBlanksSpace(w[1..]);
      CountAppend([w[0]], CollapseBlanks(w[1..]), '\n');
      CountAppend([w[0]], w[1..], '\n');
      assert w == [w[0]] + w[1..];
    }
  }

  lemma CollapseBlanksKeepsRuns()
    ensures KeepsRuns(CollapseBlanks)
    ensures forall w :: w != [] && AllSpace(w) && AtMostTwoBreaks(w) ==> AtMostTwoBreaks(CollapseBlanks(w))
  {
    forall w | w != [] && AllSpace(w)
      ensures CollapseBlanks(w) != [] && AllSpace(CollapseBlanks(w))
      ensures AtMostTwoBreaks(w) ==> AtMostTwoBreaks(CollapseBlanks(w))
    {
      CollapseBlanksSpace(w);
    }
  }
}
