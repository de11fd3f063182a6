/** The naming configuration of the tracking tree (src/TrackingContext.tsx):
    the default property-name converter `kebabize`, the context record
    `{ gaPrefix, propNameConverter }`, its default value, and the provider
    that fills omitted fields. React's context propagation is replaced by an
    explicit stack of the enclosing providers' values. */
module TrackingContext {
  import opened Wrappers

  // ---------------------------------------------------------------------
  // Character classes
  // ---------------------------------------------------------------------

  /** The regular-expression class `[a-z]`. */
  predicate IsLower(c: char) { 'a' <= c <= 'z' }

  /** The regular-expression class `[A-Z]`. */
  predicate IsUpper(c: char) { 'A' <= c <= 'Z' }

  /** The ECMAScript class `\s`: the white-space and line-terminator code
      points (tab to carriage return, space, and the Unicode space separators,
      line and paragraph separators and byte-order mark). */
  predicate IsWhitespace(c: char) {
    var n := c as int;
    if n < 0x80 then 0x09 <= n <= 0x0D || n == 0x20
    else (n == 0xA0 || n == 0x1680 || 0x2000 <= n <= 0x200A || n == 0x2028 || n == 0x2029
          || n == 0x202F || n == 0x205F || n == 0x3000 || n == 0xFEFF)
  }

  /** The class `[\s_]` whose runs the second pass of `kebabize` collapses. */
  predicate IsSeparator(c: char) { IsWhitespace(c) || c == '_' }

  /** A `[a-z][A-Z]` pair starts at index `i` of `s`. */
  predicate IsBoundary(s: string, i: int) {
    0 <= i && i + 1 < |s| && IsLower(s[i]) && IsUpper(s[i + 1])
  }

  predicate NoBoundary(s: string) { forall i | 0 <= i < |s| :: !IsBoundary(s, i) }

  predicate NoUpper(s: string) { forall i :: 0 <= i < |s| ==> !IsUpper(s[i]) }

  predicate NotDash(c: char) { c != '-' }

  /** Characters that no pass of `kebabize` inserts, removes or merges. */
  predicate IsPlain(c: char) { !IsSeparator(c) && c != '-' }

  /** The characters of `s` that satisfy `p`, in order. */
  function Filter(p: char -> bool, s: string): (r: string)
    ensures |r| <= |s|
    ensures forall i :: 0 <= i < |r| ==> p(r[i])
  {
    if s == [] then [] else (if p(s[0]) then [s[0]] else []) + Filter(p, s[1..])
  }

  lemma {:induction false} FilterAppend(p: char -> bool, a: string, b: string)
    ensures Filter(p, a + b) == Filter(p, a) + Filter(p, b)
  {
    if a != [] {
      assert (a + b)[0] == a[0] && (a + b)[1..] == a[1..] + b;
      FilterAppend(p, a[1..], b);
    } else {
      assert a + b == b;
    }
  }

  /** Number of `[a-z][A-Z]` pairs in `s`. */
  function Boundaries(s: string): nat {
    if |s| < 2 then 0 else (if IsBoundary(s, 0) then 1 else 0) + Boundaries(s[1..])
  }

  // ---------------------------------------------------------------------
  // Pass 1 (src/TrackingContext.tsx:16): a dash between a lowercase and an
  // uppercase ASCII letter
  // ---------------------------------------------------------------------

  /** Inserts `-` between every lowercase letter and the uppercase letter that
      follows it. A match is two characters wide and its second character is
      never the first of another match, so every such pair is matched. */
  function SplitCamel(s: string): (r: string)
    ensures |s| > 0 ==> |r| > 0 && r[0] == s[0]
  {
    if |s| < 2 then s
    else if IsBoundary(s, 0) then [s[0], '-'] + SplitCamel(s[1..])
    else [s[0]] + SplitCamel(s[1..])
  }

  /** The first pass only inserts dashes: the characters of the input that
      are not dashes stay, in order, and nothing else is added. */
  lemma {:induction false} SplitCamelKeeps(p: char -> bool, s: string)
    requires !p('-')
    ensures Filter(p, SplitCamel(s)) == Filter(p, s)
  {
    if |s| >= 2 {
      SplitCamelKeeps(p, s[1..]);
      if IsBoundary(s, 0) {
        FilterAppend(p, [s[0], '-'], SplitCamel(s[1..]));
        assert [s[0], '-'][1..] == ['-'];
      } else {
        FilterAppend(p, [s[0]], SplitCamel(s[1..]));
      }
      assert s == [s[0]] + s[1..];
      FilterAppend(p, [s[0]], s[1..]);
    }
  }

  /** The first pass adds exactly one dash per `[a-z][A-Z]` pair. */
  lemma {:induction false} SplitCamelLength(s: string)
    ensures |SplitCamel(s)| == |s| + Boundaries(s)
    ensures Filter(NotDash, SplitCamel(s)) == Filter(NotDash, s)
  {
    if |s| >= 2 {
      SplitCamelLength(s[1..]);
    }
    SplitCamelKeeps(NotDash, s);
  }

  /** After the first pass no lowercase letter is directly followed by an
      uppercase letter. */
  lemma {:induction false} SplitCamelNoBoundary(s: string)
    ensures NoBoundary(SplitCamel(s))
  {
    if |s| >= 2 {
      SplitCamelNoBoundary(s[1..]);
      var rest := SplitCamel(s[1..]);
      var r := SplitCamel(s);
      forall i ensures !IsBoundary(r, i) {
        if IsBoundary(s, 0) {
          assert r == [s[0], '-'] + rest;
          if 2 <= i && i + 1 < |r| { assert r[i] == rest[i - 2] && r[i + 1] == rest[i - 1]; assert !IsBoundary(rest, i - 2); }
        } else {
          assert r == [s[0]] + rest;
          if 1 <= i && i + 1 < |r| { assert r[i] == rest[i - 1] && r[i + 1] == rest[i]; assert !IsBoundary(rest, i - 1); }
        }
      }
    }
  }

  /** The first pass changes a string exactly when it holds a `[a-z][A-Z]` pair. */
  lemma {:induction false} SplitCamelUnchanged(s: string)
    ensures SplitCamel(s) == s <==> NoBoundary(s)
  {
    if NoBoundary(s) {
      if |s| >= 2 {
        assert !IsBoundary(s, 0);
        forall i ensures !IsBoundary(s[1..], i) { assert !IsBoundary(s, i + 1); }
        SplitCamelUnchanged(s[1..]);
        assert [s[0]] + s[1..] == s;
      }
    } else {
      SplitCamelNoBoundary(s);
    }
  }

  /** The first pass works locally: on a concatenation it adds a dash at the
      junction exactly when a lowercase letter meets an uppercase letter there. */
  lemma {:induction false} SplitCamelJoin(a: string, b: string)
    requires a != [] && b != []
    ensures SplitCamel(a + b)
         == SplitCamel(a) + (if IsLower(a[|a| - 1]) && IsUpper(b[0]) then "-" else "") + SplitCamel(b)
  {
    var s := a + b;
    assert s[0] == a[0] && s[1..] == a[1..] + b;
    if |a| == 1 {
      assert s[1] == b[0] && s[1..] == b;
    } else {
      assert s[1] == a[1] && a[1..][|a| - 2] == a[|a| - 1];
      SplitCamelJoin(a[1..], b);
    }
  }

  // ---------------------------------------------------------------------
  // Pass 2 (src/TrackingContext.tsx:17): each maximal run of white space
  // and underscores becomes one dash
  // ---------------------------------------------------------------------

  /** Every character of `s` is in the class. */
  predicate AllIn(inClass: char -> bool, s: string) {
    forall i :: 0 <= i < |s| ==> inClass(s[i])
  }

  /** No character of `s` is in the class. */
  predicate NoneIn(inClass: char -> bool, s: string) {
    forall i :: 0 <= i < |s| ==> !inClass(s[i])
  }

  /** Ends outside the class (or is empty), so a run cannot continue from it. */
  predicate EndsOutside(inClass: char -> bool, s: string) { s == [] || !inClass(s[|s| - 1]) }

  /** Starts outside the class (or is empty). */
  predicate StartsOutside(inClass: char -> bool, s: string) { s == [] || !inClass(s[0]) }

  /** `s` without its leading run of characters of the class. */
  function SkipRun(inClass: char -> bool, s: string): (r: string)
    ensures |r| <= |s|
    ensures StartsOutside(inClass, r)
  {
    if s != [] && inClass(s[0]) then SkipRun(inClass, s[1..]) else s
  }

  /** A run cannot swallow a string that ends outside the class. */
  lemma {:induction false} SkipRunKeepsLast(inClass: char -> bool, s: string)
    requires s != [] && EndsOutside(inClass, s)
    ensures SkipRun(inClass, s) != []
    ensures SkipRun(inClass, s)[|SkipRun(inClass, s)| - 1] == s[|s| - 1]
  {
    if inClass(s[0]) {
      assert s[1..][|s| - 2] == s[|s| - 1];
      SkipRunKeepsLast(inClass, s[1..]);
    }
  }

  /** A global replace of the runs of a character class by `-`: every
      maximal (greedy) run of characters of the class becomes one `-`. */
  function ReplaceRuns(inClass: char -> bool, s: string): (r: string)
    decreases |s|
  {
    if s == [] then []
    else if inClass(s[0]) then "-" + ReplaceRuns(inClass, SkipRun(inClass, s[1..]))
    else [s[0]] + ReplaceRuns(inClass, s[1..])
  }

  /** No character of the class is left, as long as `-` is not in it. */
  lemma {:induction false} ReplaceRunsNoneLeft(inClass: char -> bool, s: string)
    requires !inClass('-')
    ensures NoneIn(inClass, ReplaceRuns(inClass, s))
    decreases |s|
  {
    if s != [] {
      if inClass(s[0]) {
        ReplaceRunsNoneLeft(inClass, SkipRun(inClass, s[1..]));
      } else {
        ReplaceRunsNoneLeft(inClass, s[1..]);
      }
    }
  }

  lemma {:induction false} SkipRunFilter(inClass: char -> bool, p: char -> bool, s: string)
    requires forall c :: inClass(c) ==> !p(c)
    ensures Filter(p, SkipRun(inClass, s)) == Filter(p, s)
  {
    if s != [] && inClass(s[0]) {
      SkipRunFilter(inClass, p, s[1..]);
    }
  }

  /** Every character that is neither in the class nor a dash stays, in order. */
  lemma {:induction false} ReplaceRunsKeeps(inClass: char -> bool, p: char -> bool, s: string)
    requires !p('-')
    requires forall c :: inClass(c) ==> !p(c)
    ensures Filter(p, ReplaceRuns(inClass, s)) == Filter(p, s)
    decreases |s|
  {
    if s != [] {
      if inClass(s[0]) {
        ReplaceRunsKeeps(inClass, p, SkipRun(inClass, s[1..]));
        SkipRunFilter(inClass, p, s[1..]);
        FilterAppend(p, "-", ReplaceRuns(inClass, SkipRun(inClass, s[1..])));
      } else {
        ReplaceRunsKeeps(inClass, p, s[1..]);
        FilterAppend(p, [s[0]], ReplaceRuns(inClass, s[1..]));
      }
    }
  }

  lemma {:induction false} SkipRunAppend(inClass: char -> bool, x: string, y: string)
    requires x != [] && EndsOutside(inClass, x)
    ensures SkipRun(inClass, x + y) == SkipRun(inClass, x) + y
  {
    if inClass(x[0]) {
      assert |x| > 1;
      assert (x + y)[0] == x[0] && (x + y)[1..] == x[1..] + y;
      SkipRunAppend(inClass, x[1..], y);
    } else {
      assert (x + y)[0] == x[0];
    }
  }

  lemma {:induction false} SkipRunOfRun(inClass: char -> bool, run: string, b: string)
    requires AllIn(inClass, run)
    requires StartsOutside(inClass, b)
    ensures SkipRun(inClass, run + b) == b
  {
    if run != [] {
      assert (run + b)[0] == run[0] && (run + b)[1..] == run[1..] + b;
      SkipRunOfRun(inClass, run[1..], b);
    } else {
      assert run + b == b;
    }
  }

  /** Each maximal run becomes exactly one dash: a non-empty run that neither
      neighbour continues is replaced independently of what surrounds it. */
  lemma {:induction false} ReplaceRunsSplit(inClass: char -> bool, a: string, run: string, b: string)
    requires EndsOutside(inClass, a) && StartsOutside(inClass, b)
    requires run != [] && AllIn(inClass, run)
    ensures ReplaceRuns(inClass, a + run + b) == ReplaceRuns(inClass, a) + "-" + ReplaceRuns(inClass, b)
    decreases |a|, 1
  {
    if a == [] {
      var tail := run + b;
      assert a + run + b == tail;
      assert tail[0] == run[0] && tail[1..] == run[1..] + b;
      SkipRunOfRun(inClass, run[1..], b);
    } else if inClass(a[0]) {
      ReplaceRunsSplitRunFirst(inClass, a, run, b);
    } else {
      var s := a + run + b;
      assert s[0] == a[0] && s[1..] == a[1..] + run + b;
      assert |a| > 1 ==> a[1..][|a| - 2] == a[|a| - 1];
      ReplaceRunsSplit(inClass, a[1..], run, b);
    }
  }

  /** The step of `ReplaceRunsSplit` where `a` opens with a run of its own. */
  lemma {:induction false} ReplaceRunsSplitRunFirst(inClass: char -> bool, a: string, run: string, b: string)
    requires a != [] && inClass(a[0]) && EndsOutside(inClass, a) && StartsOutside(inClass, b)
    requires run != [] && AllIn(inClass, run)
    ensures ReplaceRuns(inClass, a + run + b) == ReplaceRuns(inClass, a) + "-" + ReplaceRuns(inClass, b)
    decreases |a|, 0
  {
    var tail := run + b;
    var s := a + tail;
    assert s == a + run + b;
    assert s[0] == a[0] && s[1..] == a[1..] + tail;
    assert a[1..][|a| - 2] == a[|a| - 1];
    var a' := SkipRun(inClass, a[1..]);
    SkipRunKeepsLast(inClass, a[1..]);
    SkipRunAppend(inClass, a[1..], tail);
    assert ReplaceRuns(inClass, s) == "-" + ReplaceRuns(inClass, a' + tail);
    assert a' + tail == a' + run + b;
    ReplaceRunsSplit(inClass, a', run, b);
  }

  /** The pass changes a string exactly when it holds a character of the class. */
  lemma {:induction false} ReplaceRunsUnchanged(inClass: char -> bool, s: string)
    requires !inClass('-')
    ensures ReplaceRuns(inClass, s) == s <==> NoneIn(inClass, s)
  {
    if NoneIn(inClass, s) {
      if s != [] {
        assert NoneIn(inClass, s[1..]) by {
          forall i | 0 <= i < |s| - 1 ensures !inClass(s[1..][i]) { assert s[1..][i] == s[i + 1]; }
        }
        ReplaceRunsUnchanged(inClass, s[1..]);
        assert [s[0]] + s[1..] == s;
      }
    } else {
      ReplaceRunsNoneLeft(inClass, s);
    }
  }

  // ---------------------------------------------------------------------
  // Pass 3 (src/TrackingContext.tsx:18): lowercasing
  // ---------------------------------------------------------------------

  /** Lowercases an ASCII letter and leaves every other character alone. */
  function LowerChar(c: char): (r: char)
    ensures !IsUpper(r)
    ensures IsUpper(c) ==> IsLower(r) && r as int == c as int + 32
    ensures !IsUpper(c) ==> r == c
  {
    if IsUpper(c) then (c as int - 'A' as int + 'a' as int) as char else c
  }

  /** `toLowerCase`, character by character. */
  function Lower(s: string): (r: string)
    ensures |r| == |s|
  {
    seq(|s|, i requires 0 <= i < |s| => LowerChar(s[i]))
  }

  /** Lowercasing neither creates nor removes separators or dashes. */
  lemma {:induction false} LowerFilterPlain(s: string)
    ensures Filter(IsPlain, Lower(s)) == Lower(Filter(IsPlain, s))
  {
    if s != [] {
      LowerFilterPlain(s[1..]);
      assert Lower(s)[1..] == Lower(s[1..]);
      if IsPlain(s[0]) {
        assert Lower([s[0]] + Filter(IsPlain, s[1..])) == [LowerChar(s[0])] + Lower(Filter(IsPlain, s[1..]));
      }
    }
  }

  lemma LowerUnchanged(s: string)
    ensures Lower(s) == s <==> NoUpper(s)
  {
    if !NoUpper(s) {
      var i :| 0 <= i < |s| && IsUpper(s[i]);
      assert Lower(s)[i] != s[i];
    }
  }

  // ---------------------------------------------------------------------
  // kebabize
  // ---------------------------------------------------------------------

  /** The default property-name converter (src/TrackingContext.tsx:14-18). */
  function Kebabize(s: string): string {
    Lower(ReplaceRuns(IsSeparator, SplitCamel(s)))
  }

  /** The converted name has no uppercase ASCII letter, no whitespace and no
      underscore. */
  lemma KebabizeIsKebab(s: string)
    ensures NoUpper(Kebabize(s)) && NoneIn(IsSeparator, Kebabize(s))
  {
    var c := ReplaceRuns(IsSeparator, SplitCamel(s));
    ReplaceRunsNoneLeft(IsSeparator, SplitCamel(s));
    forall i | 0 <= i < |c| ensures !IsSeparator(Kebabize(s)[i]) {
      assert !IsSeparator(c[i]);
    }
  }

  /** `kebabize` keeps every character of the name that is not whitespace,
      `_` or `-`, in order, lowercased. */
  lemma KebabizeKeepsPlain(s: string)
    ensures Filter(IsPlain, Kebabize(s)) == Lower(Filter(IsPlain, s))
  {
    SplitCamelKeeps(IsPlain, s);
    ReplaceRunsKeeps(IsSeparator, IsPlain, SplitCamel(s));
    LowerFilterPlain(ReplaceRuns(IsSeparator, SplitCamel(s)));
  }

  /** A name is its own kebab form exactly when it has no uppercase ASCII
      letter and no whitespace or underscore. */
  lemma KebabizeUnchanged(s: string)
    ensures Kebabize(s) == s <==> NoUpper(s) && NoneIn(IsSeparator, s)
  {
    if NoUpper(s) && NoneIn(IsSeparator, s) {
      SplitCamelUnchanged(s);
      ReplaceRunsUnchanged(IsSeparator, s);
      LowerUnchanged(s);
    } else {
      KebabizeIsKebab(s);
    }
  }

  /** Converting an already converted name changes nothing. */
  lemma KebabizeIdempotent(s: string)
    ensures Kebabize(Kebabize(s)) == Kebabize(s)
  {
    KebabizeIsKebab(s);
    KebabizeUnchanged(Kebabize(s));
  }

  // ---------------------------------------------------------------------
  // The context value and its provider
  // ---------------------------------------------------------------------

  /** What a `Trackable` reads from the nearest `TrackingProvider`. */
  datatype TrackingContextValues = TrackingContextValues(
    propNameConverter: string -> string,
    gaPrefix: string)

  /** The value seen when no provider encloses the component. */
  const DefaultContext := TrackingContextValues(Kebabize, "")

  /** The provider's props; `None` is an omitted prop. */
  datatype TrackingProviderProps = TrackingProviderProps(
    gaPrefix: Option<string>,
    propNameConverter: Option<string -> string>)

  /** The value a provider installs: each omitted prop takes the global
      default; the enclosing provider is not consulted. */
  function TrackingProvider(props: TrackingProviderProps): (ctx: TrackingContextValues)
    ensures ctx.gaPrefix == props.gaPrefix.GetOr("")
    ensures forall name :: ctx.propNameConverter(name) == props.propNameConverter.GetOr(Kebabize)(name)
  {
    TrackingContextValues(props.propNameConverter.GetOr(Kebabize), props.gaPrefix.GetOr(""))
  }

  /** `useContext`: the value of the innermost enclosing provider (the last of
      `enclosing`), or the default value. */
  function UseTrackingCtx(enclosing: seq<TrackingContextValues>): TrackingContextValues {
    if enclosing == [] then DefaultContext else enclosing[|enclosing| - 1]
  }

  /** The default value holds the empty prefix and `kebabize`. */
  lemma DefaultContextValues()
    ensures DefaultContext.gaPrefix == ""
    ensures forall name :: DefaultContext.propNameConverter(name) == Kebabize(name)
    ensures UseTrackingCtx([]) == DefaultContext
  {
  }

  /** A provider that sets nothing yields the default value. */
  lemma EmptyProviderIsDefault()
    ensures TrackingProvider(TrackingProviderProps(None, None)) == DefaultContext
  {
  }

  /** Inside a provider, the component sees the provider's props with the
      global defaults for those omitted, whatever the enclosing providers set. */
  lemma ProviderDoesNotInherit(outer: seq<TrackingContextValues>, props: TrackingProviderProps)
    ensures UseTrackingCtx(outer + [TrackingProvider(props)]).gaPrefix == props.gaPrefix.GetOr("")
    ensures forall name :: UseTrackingCtx(outer + [TrackingProvider(props)]).propNameConverter(name)
                           == props.propNameConverter.GetOr(Kebabize)(name)
  {
  }
}
