/** The three regular expressions of the resolver, each written out as the scan a
    backtracking regex engine performs:
    - the destroy-like naming heuristic `/destroy|dispose|teardown|signal|unsubscribe/i`
      together with the trailing-`$` convention (`isDestroySubjectName`);
    - the Subject sniffing of a property's type and initializer text
      (`/Subject/i` and `/new\s+(Replay|Behavior)?Subject/i`);
    - the global scan `/this\.(\w+\$?)\.(?:next|complete)\(\)/g` over the body of
      `ngOnDestroy`, driven by repeated `exec` calls. */
module Naming {
  import opened Base
  import opened Text

  /* ---------------------------------------------------------------------- */
  /*                      The destroy-like naming heuristic                   */
  /* ---------------------------------------------------------------------- */

  /** The words whose presence, in any ASCII case, marks a teardown signal. */
  const DestroyWords: seq<string> := ["destroy", "dispose", "teardown", "signal", "unsubscribe"]

  /** An unanchored search for `pat`, trying every start position from `k` on. */
  function SearchFrom(s: string, pat: string, k: nat): (r: bool)
    ensures r <==> exists i | k <= i <= |s| - |pat| :: OccursAt(s, pat, i)
    decreases |s| - k
  {
    if k + |pat| > |s| then false
    else OccursAt(s, pat, k) || SearchFrom(s, pat, k + 1)
  }

  /** An alternation of plain words, tried left to right from alternative `i` on:
      some remaining alternative occurs somewhere. */
  function SearchAny(s: string, words: seq<string>, i: nat): (r: bool)
    ensures r <==> exists j | i <= j < |words| :: Contains(s, words[j])
    decreases |words| - i
  {
    if i >= |words| then false
    else SearchFrom(s, words[i], 0) || SearchAny(s, words, i + 1)
  }

  /** `isDestroySubjectName`: the name ends with `$`, or contains one of the teardown
      words anywhere, ignoring ASCII case. */
  function IsDestroySubjectName(name: string): (r: bool)
    ensures r <==> EndsWith(name, "$") || exists w | w in DestroyWords :: ContainsFolded(name, w)
  {
    SearchAnyMembers(Lower(name), DestroyWords);
    (name != [] && name[|name| - 1] == '$') || SearchAny(Lower(name), DestroyWords, 0)
  }

  lemma SearchAnyMembers(s: string, words: seq<string>)
    ensures SearchAny(s, words, 0) <==> exists w | w in words :: Contains(s, w)
  {
    if SearchAny(s, words, 0) {
      var j :| 0 <= j < |words| && Contains(s, words[j]);
      assert words[j] in words;
    }
  }

  lemma LowerIdempotent(s: string)
    ensures Lower(Lower(s)) == Lower(s)
  {
  }

  /** The heuristic ignores ASCII case. */
  lemma DestroyNameIgnoresCase(name: string)
    ensures IsDestroySubjectName(Lower(name)) == IsDestroySubjectName(name)
  {
    LowerIdempotent(name);
    if name != [] {
      assert Lower(name)[|name| - 1] == '$' <==> name[|name| - 1] == '$';
    }
  }

  /** The heuristic is unanchored: a teardown word anywhere in the name is enough. */
  lemma DestroyNameContainsWord(a: string, w: string, b: string)
    requires w in DestroyWords
    ensures IsDestroySubjectName(a + w + b)
  {
    var s := a + w + b;
    assert forall i | 0 <= i < |w| :: !('A' <= w[i] <= 'Z');
    assert Lower(s)[|a|..|a| + |w|] == w;
    assert OccursAt(Lower(s), w, |a|);
  }

  /** A trailing `$` alone is enough. */
  lemma DestroyNameDollar(stem: string)
    ensures IsDestroySubjectName(stem + "$")
  {
  }

  /** `teardown$`, `signal` and a camel-cased `componentDestroyed` qualify. */
  lemma DestroyNameCases()
    ensures IsDestroySubjectName("teardown$")
    ensures IsDestroySubjectName("signal")
    ensures IsDestroySubjectName("componentDestroyed")
  {
    DestroyNameDollar("teardown");
    DestroyNameContainsWord("", "signal", "");
    assert "" + "signal" + "" == "signal";
    CamelCaseQualifies();
  }

  lemma CamelCaseQualifies()
    ensures IsDestroySubjectName("componentDestroyed")
  {
    var n := "componentDestroyed";
    assert Lower(n)[9..16] == "destroy";
    assert OccursAt(Lower(n), "destroy", 9);
  }

  /** A single differing character rules an occurrence out. */
  lemma DiffersAt(s: string, pat: string, i: nat, t: nat)
    requires t < |pat| && i + t < |s| && s[i + t] != pat[t]
    ensures !OccursAt(s, pat, i)
  {
  }

  /** Plain names without a teardown word or trailing `$` do not qualify. */
  lemma PlainNamesDoNotQualify()
    ensures !IsDestroySubjectName("subject")
    ensures !IsDestroySubjectName("data")
  {
    SubjectDoesNotQualify();
  }

  lemma SubjectDoesNotQualify()
    ensures !IsDestroySubjectName("subject")
  {
    var n := "subject";
    assert Lower(n) == n;
    assert !Contains(n, "signal") by {
      DiffersAt(n, "signal", 0, 1);
      DiffersAt(n, "signal", 1, 0);
    }
    assert !Contains(n, "destroy") by {
      DiffersAt(n, "destroy", 0, 0);
    }
    assert !Contains(n, "dispose") by {
      DiffersAt(n, "dispose", 0, 0);
    }
    forall w | w in DestroyWords
      ensures !ContainsFolded(n, w)
    {
    }
  }

  /* ---------------------------------------------------------------------- */
  /*                            Subject sniffing                              */
  /* ---------------------------------------------------------------------- */

  /** `/Subject/i` on a property's declared type text (empty when there is none). */
  predicate MentionsSubject(typeText: string) {
    ContainsFolded(typeText, "subject")
  }

  /** The constructor names `(Replay|Behavior)?Subject` accepts, lower-cased. */
  const SubjectKinds: seq<string> := ["subject", "replaysubject", "behaviorsubject"]

  /** The end of the run of white space starting at `i`. */
  function SpaceRunEnd(s: string, i: nat): (r: nat)
    requires i <= |s|
    ensures i <= r <= |s|
    ensures forall k | i <= k < r :: IsSpace(s[k])
    ensures r < |s| ==> !IsSpace(s[r])
    decreases |s| - i
  {
    if i < |s| && IsSpace(s[i]) then SpaceRunEnd(s, i + 1) else i
  }

  /** The regex `/new\s+(Replay|Behavior)?Subject/i` matches at `k`: `new` in any case,
      the whole white-space run after it (non-empty), then a Subject constructor name.
      The run is taken whole because a constructor name starts with a letter, so no
      shorter run can be followed by one. */
  predicate NewSubjectAt(t: string, k: nat) {
    OccursAt(Lower(t), "new", k) &&
    var e := SpaceRunEnd(t, k + 3);
    e > k + 3 && exists w | w in SubjectKinds :: OccursAt(Lower(t), w, e)
  }

  /** How the regex reads the same text: `new`, then some number `m >= 1` of white-space
      characters, then a constructor name. */
  predicate NewSubjectSpelled(t: string, k: nat, m: nat) {
    OccursAt(Lower(t), "new", k) && m >= 1 && k + 3 + m <= |t| &&
    (forall i | k + 3 <= i < k + 3 + m :: IsSpace(t[i])) &&
    exists w | w in SubjectKinds :: OccursAt(Lower(t), w, k + 3 + m)
  }

  /** Taking the white-space run whole loses no match of the regex, and finds no
      match the regex would not. */
  lemma NewSubjectAtIff(t: string, k: nat)
    ensures NewSubjectAt(t, k) <==> exists m :: NewSubjectSpelled(t, k, m)
  {
    if NewSubjectAt(t, k) {
      RunIsSpelled(t, k);
    }
    if m :| NewSubjectSpelled(t, k, m) {
      SpelledIsRun(t, k, m);
    }
  }

  lemma RunIsSpelled(t: string, k: nat)
    requires NewSubjectAt(t, k)
    ensures NewSubjectSpelled(t, k, SpaceRunEnd(t, k + 3) - (k + 3))
  {
  }

  lemma SpelledIsRun(t: string, k: nat, m: nat)
    requires NewSubjectSpelled(t, k, m)
    ensures NewSubjectAt(t, k)
  {
    var p := k + 3 + m;
    var w :| w in SubjectKinds && OccursAt(Lower(t), w, p);
    KindStartsWithLetter(t, p, w);
    SpaceRunEndIs(t, k + 3, p);
  }

  /** A Subject constructor name starts with a letter, never with white space. */
  lemma KindStartsWithLetter(t: string, p: nat, w: string)
    requires w in SubjectKinds && OccursAt(Lower(t), w, p)
    ensures !IsSpace(t[p])
  {
    CharOf(Lower(t), w, p, 0);
    assert LowerChar(t[p]) in {'s', 'r', 'b'};
  }

  /** The white-space run from `i` ends at `j` when `[i, j)` is white space and `j` is not. */
  lemma {:induction false} SpaceRunEndIs(s: string, i: nat, j: nat)
    requires i <= j <= |s|
    requires forall k | i <= k < j :: IsSpace(s[k])
    requires j == |s| || !IsSpace(s[j])
    ensures SpaceRunEnd(s, i) == j
    decreases j - i
  {
    if i < j {
      SpaceRunEndIs(s, i + 1, j);
    }
  }

  /** Tries every start position from `k` on. */
  function FindNewSubject(t: string, k: nat): (r: bool)
    ensures r <==> exists i | k <= i <= |t| :: NewSubjectAt(t, i)
    decreases |t| - k
  {
    if k > |t| then false
    else NewSubjectAt(t, k) || FindNewSubject(t, k + 1)
  }

  /** The resolver's test that a property holds a Subject: its type text mentions one,
      or its initializer constructs one. */
  function IsSubjectProperty(typeText: string, initText: string): (r: bool)
    ensures r <==> MentionsSubject(typeText) || exists i | 0 <= i <= |initText| :: NewSubjectAt(initText, i)
  {
    SearchFrom(Lower(typeText), "subject", 0) || FindNewSubject(initText, 0)
  }

  /** The synthesized property `destroy$: Subject<void> = new Subject<void>()` passes. */
  lemma SynthesizedIsSubject()
    ensures IsSubjectProperty("Subject<void>", "new Subject<void>()")
  {
    assert Lower("Subject<void>")[0..7] == "subject";
    assert OccursAt(Lower("Subject<void>"), "subject", 0);
  }

  /** `new BehaviorSubject(false)` and `new \tReplaySubject<void>(1)` are recognized
      from the initializer alone, whatever the white space after `new`. */
  lemma InitializerCases()
    ensures IsSubjectProperty("", "new BehaviorSubject(false)")
    ensures IsSubjectProperty("", "new \tReplaySubject<void>(1)")
  {
    BehaviorInitializer();
    ReplayInitializer();
  }

  /** Lower-casing a stretch of the text yields `w`. */
  lemma LowerSlice(s: string, i: nat, w: string)
    requires i + |w| <= |s|
    requires forall k | 0 <= k < |w| :: LowerChar(s[i + k]) == w[k]
    ensures OccursAt(Lower(s), w, i)
  {
    assert Lower(s)[i..i + |w|] == w;
  }

  lemma BehaviorInitializer()
    ensures NewSubjectAt("new BehaviorSubject(false)", 0)
  {
    var a := "new BehaviorSubject(false)";
    LowerSlice(a, 0, "new");
    BehaviorLowered();
    assert a[3] == ' ' && a[4] == 'B' && !IsSpace('B');
    SpaceRunEndIs(a, 3, 4);
    assert SubjectKinds[2] in SubjectKinds;
  }

  lemma BehaviorLowered()
    ensures OccursAt(Lower("new BehaviorSubject(false)"), "behaviorsubject", 4)
  {
    LowerSlice("new BehaviorSubject(false)", 4, "behaviorsubject");
  }

  lemma ReplayLowered()
    ensures OccursAt(Lower("new \tReplaySubject<void>(1)"), "replaysubject", 5)
  {
    LowerSlice("new \tReplaySubject<void>(1)", 5, "replaysubject");
  }

  lemma ReplayInitializer()
    ensures NewSubjectAt("new \tReplaySubject<void>(1)", 0)
  {
    var b := "new \tReplaySubject<void>(1)";
    LowerSlice(b, 0, "new");
    ReplayLowered();
    assert b[3] == ' ' && b[4] == '\t' && b[5] == 'R' && !IsSpace('R');
    SpaceRunEndIs(b, 3, 5);
    assert SubjectKinds[1] in SubjectKinds;
  }

  /* ---------------------------------------------------------------------- */
  /*                  The teardown-hook scan `this.<name>.next()`              */
  /* ---------------------------------------------------------------------- */

  /** `\w`: ASCII letters, digits and `_`. */
  predicate IsWordChar(c: char) {
    'a' <= c <= 'z' || 'A' <= c <= 'Z' || '0' <= c <= '9' || c == '_'
  }

  /** The end of the run of word characters starting at `i`. */
  function WordRunEnd(s: string, i: nat): (r: nat)
    requires i <= |s|
    ensures i <= r <= |s|
    ensures forall k | i <= k < r :: IsWordChar(s[k])
    ensures r < |s| ==> !IsWordChar(s[r])
    decreases |s| - i
  {
    if i < |s| && IsWordChar(s[i]) then WordRunEnd(s, i + 1) else i
  }

  const ThisDot := "this."
  const NextCall := ".next()"
  const CompleteCall := ".complete()"
  /** The two calls that end a mention. */
  predicate IsTerminalCall(t: string) {
    t == NextCall || t == CompleteCall
  }

  /** One match of the teardown-hook regex: the captured name and where the match ends. */
  datatype HookMention = HookMention(name: string, end: nat)

  /** Where `\w+\$?` stops when started at `i`: after the whole word run, and after the
      `$` that follows it when there is one. */
  function CaptureEnd(s: string, i: nat): (r: nat)
    requires i <= |s|
    ensures WordRunEnd(s, i) <= r <= |s|
  {
    var w := WordRunEnd(s, i);
    if w < |s| && s[w] == '$' then w + 1 else w
  }

  /** The alternation `\.(?:next|complete)\(\)` at `n`, tried left to right. */
  function TerminalCallAt(s: string, n: nat): (r: Option<string>)
    ensures r.Some? ==> IsTerminalCall(r.value) && OccursAt(s, r.value, n)
  {
    if OccursAt(s, NextCall, n) then Some(NextCall)
    else if OccursAt(s, CompleteCall, n) then Some(CompleteCall)
    else None
  }

  /** The two terminal calls cannot both occur at one position, so the alternation
      finds whichever one is there. */
  lemma TerminalCallUnique(s: string, n: nat, tail: string)
    requires IsTerminalCall(tail) && OccursAt(s, tail, n)
    ensures TerminalCallAt(s, n) == Some(tail)
  {
    if tail == CompleteCall {
      CharOf(s, tail, n, 1);
      DiffersAt(s, NextCall, n, 1);
    }
  }

  /** The match of `this\.(\w+\$?)\.(?:next|complete)\(\)` that starts exactly at `k`,
      if any. `\w+` takes the whole word run: a shorter run is followed by a word
      character, which is neither the optional `$` nor the `.` after it, so
      backtracking into the run finds nothing; a `$` not followed by a call cannot be
      given back either, since the `.` would then have to be that `$`. */
  function MatchAt(s: string, k: nat): (r: Option<HookMention>)
    ensures r.Some? ==> k + |ThisDot| < r.value.end <= |s|
  {
    if !OccursAt(s, ThisDot, k) || WordRunEnd(s, k + 5) == k + 5 then None
    else
      var n := CaptureEnd(s, k + 5);
      match TerminalCallAt(s, n)
      case None => None
      case Some(tail) => Some(HookMention(s[k + 5..n], n + |tail|))
  }

  /** A name the capture group `(\w+\$?)` accepts: a non-empty word run, optionally
      followed by `$`. */
  predicate IsCaptureName(name: string) {
    var stem := if name != [] && name[|name| - 1] == '$' then name[..|name| - 1] else name;
    stem != [] && forall i | 0 <= i < |stem| :: IsWordChar(stem[i])
  }

  /** The text at `k` reads `this.`, then `name`, then one of the two terminal calls,
      and the mention ends right after it. */
  predicate Spells(s: string, k: nat, h: HookMention) {
    var n := k + |ThisDot| + |h.name|;
    && IsCaptureName(h.name) && OccursAt(s, ThisDot, k) && OccursAt(s, h.name, k + |ThisDot|)
    && (|| (OccursAt(s, NextCall, n) && h.end == n + |NextCall|)
        || (OccursAt(s, CompleteCall, n) && h.end == n + |CompleteCall|))
  }

  /** Every match spells out `this.<name>.next()` or `this.<name>.complete()`. */
  lemma MatchAtSound(s: string, k: nat)
    requires MatchAt(s, k).Some?
    ensures Spells(s, k, MatchAt(s, k).value)
  {
    var h := MatchAt(s, k).value;
    var n := CaptureEnd(s, k + 5);
    var tail := TerminalCallAt(s, n).value;
    assert h == HookMention(s[k + 5..n], n + |tail|);
    RunIsCapture(s, k + 5, WordRunEnd(s, k + 5), n);
    assert |ThisDot| == 5;
  }

  /** A word run, with the `$` after it when there is one, is a capture. */
  lemma RunIsCapture(s: string, i: nat, w: nat, n: nat)
    requires i < w <= |s| && forall j | i <= j < w :: IsWordChar(s[j])
    requires n == if w < |s| && s[w] == '$' then w + 1 else w
    ensures IsCaptureName(s[i..n])
  {
    var name := s[i..n];
    if n == w + 1 {
      assert name[..|name| - 1] == s[i..w];
    } else {
      assert name[|name| - 1] == s[w - 1];
    }
  }

  /** The word run from `i` ends at `j` when `[i, j)` are word characters and `j` is not. */
  lemma {:induction false} WordRunEndIs(s: string, i: nat, j: nat)
    requires i <= j <= |s|
    requires forall k | i <= k < j :: IsWordChar(s[k])
    requires j == |s| || !IsWordChar(s[j])
    ensures WordRunEnd(s, i) == j
    decreases j - i
  {
    if i < j {
      WordRunEndIs(s, i + 1, j);
    }
  }

  /** A capture followed by `.` is exactly what the scan of `\w+\$?` consumes. */
  lemma CaptureScan(s: string, i: nat, name: string)
    requires IsCaptureName(name) && OccursAt(s, name, i)
    requires i + |name| < |s| && s[i + |name|] == '.'
    ensures WordRunEnd(s, i) > i && CaptureEnd(s, i) == i + |name|
  {
    var dollar := name[|name| - 1] == '$';
    var stem := if dollar then name[..|name| - 1] else name;
    var w := i + |stem|;
    OccursAtChars(s, name, i);
    forall j | i <= j < w
      ensures IsWordChar(s[j])
    {
      assert s[j] == name[j - i] == stem[j - i];
    }
    WordRunEndIs(s, i, w);
  }

  /** Whenever the text spells a mention at `k`, the regex matches there with exactly
      that capture: the match is unique. */
  lemma MatchAtComplete(s: string, k: nat, h: HookMention)
    requires Spells(s, k, h)
    ensures MatchAt(s, k) == Some(h)
  {
    SpelledParts(s, k, h);
    MatchAtUnfold(s, k, h);
  }

  /** What the scan reads off a spelled mention: the whole capture, then its call. */
  lemma SpelledParts(s: string, k: nat, h: HookMention)
    requires Spells(s, k, h)
    ensures var n := k + |ThisDot| + |h.name|;
      && WordRunEnd(s, k + |ThisDot|) > k + |ThisDot| && CaptureEnd(s, k + |ThisDot|) == n
      && TerminalCallAt(s, n).Some? && h.end == n + |TerminalCallAt(s, n).value|
  {
    var n := k + |ThisDot| + |h.name|;
    var tail := if OccursAt(s, NextCall, n) && h.end == n + |NextCall| then NextCall else CompleteCall;
    CaptureBeforeCall(s, k + |ThisDot|, h.name, tail);
    TerminalCallUnique(s, n, tail);
  }

  /** A capture followed by a terminal call is what the scan of `\w+\$?` consumes. */
  lemma CaptureBeforeCall(s: string, i: nat, name: string, tail: string)
    requires IsCaptureName(name) && IsTerminalCall(tail)
    requires OccursAt(s, name, i) && OccursAt(s, tail, i + |name|)
    ensures WordRunEnd(s, i) > i && CaptureEnd(s, i) == i + |name|
  {
    assert tail[0] == '.';
    CharOf(s, tail, i + |name|, 0);
    CaptureScan(s, i, name);
  }

  /** The match at `k` once its capture end and terminal call are known. */
  lemma MatchAtUnfold(s: string, k: nat, h: HookMention)
    requires Spells(s, k, h)
    requires var n := k + |ThisDot| + |h.name|;
      && WordRunEnd(s, k + |ThisDot|) > k + |ThisDot| && CaptureEnd(s, k + |ThisDot|) == n
      && TerminalCallAt(s, n).Some? && h.end == n + |TerminalCallAt(s, n).value|
    ensures MatchAt(s, k) == Some(h)
  {
    assert |ThisDot| == 5;
  }

  /** One character of an occurrence. */
  lemma CharOf(s: string, pat: string, i: nat, t: nat)
    requires OccursAt(s, pat, i) && t < |pat|
    ensures s[i + t] == pat[t]
  {
    assert s[i..i + |pat|][t] == s[i + t];
  }

  /** Matches never overlap: no match starts strictly inside another one. This is
      what lets the `exec` loop resume at the end of a match without losing any. */
  lemma MatchesDoNotOverlap(s: string, k: nat, j: nat)
    requires MatchAt(s, k).Some? && k < j < MatchAt(s, k).value.end
    ensures MatchAt(s, j).None?
  {
    var w := WordRunEnd(s, k + 5);
    var n := CaptureEnd(s, k + 5);
    var tail := TerminalCallAt(s, n).value;
    assert MatchAt(s, k).value.end == n + |tail|;
    if n == w {
      CharOf(s, tail, n, 0);
    }
    if j <= k + 4 {
      NoMatchInsideThis(s, k, j);
    } else if j <= w {
      NoMatchInsideName(s, k, j, n, tail);
    } else {
      NoMatchInsideCall(s, n, tail, j);
    }
  }

  lemma NoMatchInsideThis(s: string, k: nat, j: nat)
    requires OccursAt(s, ThisDot, k) && k < j <= k + 4
    ensures MatchAt(s, j).None?
  {
    CharOf(s, ThisDot, k, j - k);
    DiffersAt(s, ThisDot, j, 0);
  }

  lemma NoMatchInsideName(s: string, k: nat, j: nat, n: nat, tail: string)
    requires k + 5 <= j <= |s| && j <= WordRunEnd(s, k + 5) < |s|
    requires var w := WordRunEnd(s, k + 5);
      (s[w] == '$' && n == w + 1) || (s[w] == '.' && n == w)
    requires IsTerminalCall(tail) && OccursAt(s, tail, n)
    ensures MatchAt(s, j).None?
  {
    var w := WordRunEnd(s, k + 5);
    if j == w {
      DiffersAt(s, ThisDot, j, 0);
    } else if j + 4 < w {
      DiffersAt(s, ThisDot, j, 4);
    } else if w < j + 4 {
      DiffersAt(s, ThisDot, j, w - j);
    } else if s[w] == '$' {
      DiffersAt(s, ThisDot, j, 4);
    } else {
      InsideTailNoMatch(s, j, n, tail);
    }
  }

  lemma NoMatchInsideCall(s: string, n: nat, tail: string, j: nat)
    requires IsTerminalCall(tail) && OccursAt(s, tail, n) && n <= j < n + |tail|
    ensures MatchAt(s, j).None?
  {
    CharOf(s, tail, n, j - n);
    if s[j] != 't' {
      DiffersAt(s, ThisDot, j, 0);
    } else {
      CharOf(s, tail, n, j - n + 1);
      DiffersAt(s, ThisDot, j, 1);
    }
  }

  /** A candidate whose `this.` ends where a terminal call begins reads the call's
      method name as its capture, which is followed by `(` and so cannot match. */
  lemma InsideTailNoMatch(s: string, j: nat, n: nat, tail: string)
    requires n == j + 4 && IsTerminalCall(tail) && OccursAt(s, tail, n)
    ensures MatchAt(s, j).None?
  {
    OccursAtChars(s, tail, n);
    var paren := if tail == NextCall then n + 5 else n + 9;
    assert s[paren] == '(';
    forall k | j + 5 <= k < paren
      ensures IsWordChar(s[k])
    {
      assert s[k] == tail[k - n];
    }
    WordRunEndIs(s, j + 5, paren);
    DiffersAt(s, NextCall, paren, 0);
    DiffersAt(s, CompleteCall, paren, 0);
  }

  /** The leftmost match at or after `from`: what one `exec` call of a global regex finds
      when its `lastIndex` is `from`. */
  function NextMatch(s: string, from: nat): (r: Option<nat>)
    ensures r.Some? ==> from <= r.value <= |s| && MatchAt(s, r.value).Some?
    ensures r.Some? ==> forall j | from <= j < r.value :: MatchAt(s, j).None?
    ensures r.None? ==> forall j | from <= j <= |s| :: MatchAt(s, j).None?
    decreases |s| - from
  {
    if from > |s| then None
    else if MatchAt(s, from).Some? then Some(from)
    else NextMatch(s, from + 1)
  }

  /** The loop `while ((match = regex.exec(body)) !== null)` of the resolver's third
      tier: each `exec` resumes where the previous match ended, and the loop stops at
      the first capture that passes the naming heuristic. */
  function ExecScan(s: string, from: nat): (r: Option<string>)
    ensures r.Some? ==> IsDestroySubjectName(r.value)
    decreases |s| - from
  {
    match NextMatch(s, from)
    case None => None
    case Some(k) =>
      var h := MatchAt(s, k).value;
      if IsDestroySubjectName(h.name) then Some(h.name) else ExecScan(s, h.end)
  }

  /** The reference reading of the third tier: the capture of the first match, trying
      every start position from `from` on, whose name passes the heuristic. */
  function FirstDestroyMention(s: string, from: nat): (r: Option<string>)
    decreases |s| - from
  {
    if from > |s| then None
    else match MatchAt(s, from)
      case Some(h) =>
        if IsDestroySubjectName(h.name) then Some(h.name) else FirstDestroyMention(s, from + 1)
      case None => FirstDestroyMention(s, from + 1)
  }

  /** Positions where nothing matches do not change the reference scan. */
  lemma {:induction false} SkipNoMatches(s: string, from: nat, to: nat)
    requires from <= to <= |s| + 1
    requires forall j | from <= j < to :: MatchAt(s, j).None?
    ensures FirstDestroyMention(s, from) == FirstDestroyMention(s, to)
    decreases |s| + 1 - from
  {
    if from < to {
      SkipNoMatches(s, from + 1, to);
    }
  }

  /** At a match, the reference scan either stops at its capture or continues after
      the whole match. */
  lemma FirstAtMatch(s: string, k: nat)
    requires MatchAt(s, k).Some?
    ensures var h := MatchAt(s, k).value;
      FirstDestroyMention(s, k) ==
        if IsDestroySubjectName(h.name) then Some(h.name) else FirstDestroyMention(s, h.end)
  {
    var h := MatchAt(s, k).value;
    forall j | k < j < h.end
      ensures MatchAt(s, j).None?
    {
      MatchesDoNotOverlap(s, k, j);
    }
    SkipNoMatches(s, k + 1, h.end);
  }

  /** Resuming each `exec` at the end of the previous match finds the same name as
      trying every start position: skipping the inside of a match loses nothing,
      because matches never overlap. */
  lemma {:induction false} ExecScanFindsFirst(s: string, from: nat)
    ensures ExecScan(s, from) == FirstDestroyMention(s, from)
    decreases |s| - from
  {
    if from <= |s| {
      var next := NextMatch(s, from);
      if next.None? {
        SkipNoMatches(s, from, |s| + 1);
      } else {
        var k := next.value;
        SkipNoMatches(s, from, k);
        FirstAtMatch(s, k);
        var h := MatchAt(s, k).value;
        if !IsDestroySubjectName(h.name) {
          ExecScanFindsFirst(s, h.end);
        }
      }
    }
  }

  /* ---------------------------------------------------------------------- */
  /*              Appending lines after the text does not move a match         */
  /* ---------------------------------------------------------------------- */

  /** No piece of a match is a line break. */
  lemma NoLineBreakInPieces()
    ensures '\n' !in ThisDot && '\n' !in NextCall && '\n' !in CompleteCall
  {
  }

  /** A line break ends a word run. */
  lemma {:induction false} WordRunEndAppend(p: string, q: string, i: nat)
    requires i <= |p|
    ensures WordRunEnd(p + "\n" + q, i) == WordRunEnd(p, i)
    decreases |p| - i
  {
    var e := p + "\n" + q;
    if i < |p| {
      assert e[i] == p[i];
      if IsWordChar(p[i]) {
        WordRunEndAppend(p, q, i + 1);
      }
    } else {
      assert e[i] == '\n';
    }
  }

  /** A line break is not the optional `$` either. */
  lemma CaptureEndAppend(p: string, q: string, i: nat)
    requires i <= |p|
    ensures CaptureEnd(p + "\n" + q, i) == CaptureEnd(p, i)
  {
    var e := p + "\n" + q;
    WordRunEndAppend(p, q, i);
    var w := WordRunEnd(p, i);
    if w < |p| {
      assert e[w] == p[w];
    } else {
      assert e[w] == '\n';
    }
  }

  /** A line-free pattern starting inside `p` occurs there in `p` exactly when it
      occurs there once lines are appended. */
  lemma OccursAtAppend(p: string, q: string, pat: string, n: nat)
    requires n <= |p| && '\n' !in pat
    ensures OccursAt(p + "\n" + q, pat, n) <==> OccursAt(p, pat, n)
  {
    var e := p + "\n" + q;
    if n + |pat| <= |p| {
      assert e[n..n + |pat|] == p[n..n + |pat|];
    } else {
      assert e[|p|] == '\n';
      assert pat[|p| - n] in pat;
      DiffersAt(e, pat, n, |p| - n);
    }
  }

  /** A match starting inside `p` is the same match once lines are appended. */
  lemma MatchAtAppend(p: string, q: string, k: nat)
    requires k <= |p|
    ensures MatchAt(p + "\n" + q, k) == MatchAt(p, k)
  {
    var e := p + "\n" + q;
    NoLineBreakInPieces();
    OccursAtAppend(p, q, ThisDot, k);
    if OccursAt(p, ThisDot, k) {
      WordRunEndAppend(p, q, k + 5);
      CaptureEndAppend(p, q, k + 5);
      var n := CaptureEnd(p, k + 5);
      OccursAtAppend(p, q, NextCall, n);
      OccursAtAppend(p, q, CompleteCall, n);
      assert TerminalCallAt(e, n) == TerminalCallAt(p, n);
      assert e[k + 5..n] == p[k + 5..n];
    }
  }

  /** Appending lines keeps the first destroy-like mention, once `p` has one. */
  lemma {:induction false} FirstMentionAppend(p: string, q: string, from: nat)
    ensures FirstDestroyMention(p, from).Some? ==>
      FirstDestroyMention(p + "\n" + q, from) == FirstDestroyMention(p, from)
    decreases |p| - from
  {
    if from <= |p| {
      MatchAtAppend(p, q, from);
      FirstMentionAppend(p, q, from + 1);
    }
  }

  /** A plain word is a capture. */
  lemma WordIsCapture(name: string)
    requires name != [] && forall i | 0 <= i < |name| :: IsWordChar(name[i])
    ensures IsCaptureName(name)
  {
  }

  /** Reading a literal occurrence off character by character. */
  lemma Spelled(s: string, i: nat, pat: string)
    requires i + |pat| <= |s| && forall t | 0 <= t < |pat| :: s[i + t] == pat[t]
    ensures OccursAt(s, pat, i)
  {
    assert s[i..i + |pat|] == pat;
  }

  /** A hook body whose only clue is `this.signal.next(); this.signal.complete();`. */
  const SignalHookBody := "this.signal.next();" + "\n" + "this.signal.complete();"

  lemma SignalHookSpelled()
    ensures OccursAt(SignalHookBody, ThisDot, 0)
    ensures OccursAt(SignalHookBody, "signal", 5)
    ensures OccursAt(SignalHookBody, NextCall, 11)
  {
    SignalHookReads(0, ThisDot);
    SignalHookReads(5, "signal");
    SignalHookReads(11, NextCall);
  }

  lemma SignalHookReads(i: nat, pat: string)
    requires i + |pat| <= 19 && forall t | 0 <= t < |pat| :: "this.signal.next();"[i + t] == pat[t]
    ensures OccursAt(SignalHookBody, pat, i)
  {
    var a, b := "this.signal.next();", "\nthis.signal.complete();";
    Spelled(a, i, pat);
    OccursInMiddle([], a, b, pat, i);
    assert [] + a + b == SignalHookBody;
  }

  lemma SignalHookFirstMatch()
    ensures MatchAt(SignalHookBody, 0) == Some(HookMention("signal", 18))
  {
    var body := SignalHookBody;
    SignalHookSpelled();
    WordIsCapture("signal");
    assert |ThisDot| + |"signal"| == 11;
    MatchAtComplete(body, 0, HookMention("signal", 18));
  }

  /** The teardown tier reads `signal` off such a body. */
  lemma HookScanExample()
    ensures ExecScan(SignalHookBody, 0) == Some("signal")
  {
    SignalHookFirstMatch();
    DestroyNameCases();
  }
}
