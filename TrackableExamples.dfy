/** Concrete cases from the component's test suite (src/Trackable.test.tsx),
    plus further conversions that exercise each pass of `kebabize`, stated on
    the model.
    Each conversion is proved about a variable equal to the literal input,
    through the general lemmas about the three passes of `kebabize`. */
module TrackableExamples {
  import opened Wrappers
  import opened TrackingContext
  import opened TrackableComponent

  // ---------------------------------------------------------------------
  // kebabize
  // ---------------------------------------------------------------------

  /** The lowercase names of the examples are their own kebab forms. */
  lemma LowercaseNameKept(s: string)
    requires s == "regular" || s == "kebab-case" || s == "name"
    ensures Kebabize(s) == s
  {
    KebabizeUnchanged(s);
  }

  lemma CapitalLowered(s: string)
    requires s == "Regular"
    ensures Kebabize(s) == "regular"
  {
    assert SplitCamel(s) == s by { SplitCamelUnchanged(s); }
    assert ReplaceRuns(IsSeparator, s) == s by { ReplaceRunsUnchanged(IsSeparator, s); }
    assert Lower(s) == "regular";
  }

  lemma CamelCaseSplit(s: string)
    requires s == "camelCase"
    ensures SplitCamel(s) == s[..5] + "-" + s[5..]
  {
    assert s == s[..5] + s[5..];
    SplitCamelJoin(s[..5], s[5..]);
    SplitCamelUnchanged(s[..5]);
    SplitCamelUnchanged(s[5..]);
  }

  lemma CamelCaseConverted(s: string)
    requires s == "camelCase"
    ensures Kebabize(s) == "camel-case"
  {
    var t := s[..5] + "-" + s[5..];
    CamelCaseSplit(s);
    assert ReplaceRuns(IsSeparator, t) == t by { ReplaceRunsUnchanged(IsSeparator, t); }
    assert Lower(t) == "camel-case";
  }

  /** `s` is a lowercase word, one run of separators, and a lowercase word:
      the run becomes one dash. */
  lemma SeparatedWordsJoined(s: string, i: nat, j: nat)
    requires 0 < i < j < |s|
    requires NoUpper(s) && NoBoundary(s)
    requires NoneIn(IsSeparator, s[..i]) && AllIn(IsSeparator, s[i..j]) && NoneIn(IsSeparator, s[j..])
    ensures Kebabize(s) == s[..i] + "-" + s[j..]
  {
    var r := s[..i] + "-" + s[j..];
    assert SplitCamel(s) == s by { SplitCamelUnchanged(s); }
    assert ReplaceRuns(IsSeparator, s) == r by {
      assert s == s[..i] + s[i..j] + s[j..];
      ReplaceRunsSplit(IsSeparator, s[..i], s[i..j], s[j..]);
      ReplaceRunsUnchanged(IsSeparator, s[..i]);
      ReplaceRunsUnchanged(IsSeparator, s[j..]);
    }
    assert NoUpper(r);
    LowerUnchanged(r);
  }

  /** An underscore between two lowercase words becomes a dash. */
  lemma UnderscoreConverted(s: string)
    requires s == "snake_case" || s == "camel_case"
    ensures s == "snake_case" ==> Kebabize(s) == "snake-case"
    ensures s == "camel_case" ==> Kebabize(s) == "camel-case"
  {
    SeparatedWordsJoined(s, 5, 6);
  }

  /** A run mixing white space and underscores becomes a single dash. */
  lemma MixedRunConverted(s: string)
    requires s == "user \t_id"
    ensures Kebabize(s) == "user-id"
  {
    SeparatedWordsJoined(s, 4, 7);
  }

  /** The naming conventions of the test suite, and two names that share
      one kebab form. */
  lemma KebabizeExamples()
    ensures Kebabize("regular") == "regular"
    ensures Kebabize("Regular") == "regular"
    ensures Kebabize("camelCase") == "camel-case"
    ensures Kebabize("snake_case") == "snake-case"
    ensures Kebabize("kebab-case") == "kebab-case"
    ensures Kebabize("name") == "name"
    ensures Kebabize("camel_case") == Kebabize("camelCase")
  {
    LowercaseNameKept("regular");
    CapitalLowered("Regular");
    CamelCaseConverted("camelCase");
    UnderscoreConverted("snake_case");
    LowercaseNameKept("kebab-case");
    LowercaseNameKept("name");
    UnderscoreConverted("camel_case");
  }

  // ---------------------------------------------------------------------
  // Prefixes and attribute maps
  // ---------------------------------------------------------------------

  /** The prefix normalisation: a trailing dash is added, and a prefix that
      already ends in a dash is dropped altogether. */
  lemma TrimmedPrefixExamples()
    ensures GetTrimmedPrefix(None) == ""
    ensures GetTrimmedPrefix(Some("")) == ""
    ensures GetTrimmedPrefix(Some("ga")) == "ga-"
    ensures GetTrimmedPrefix(Some("ga-")) == ""
  {
  }

  /** One step of the fold: the last entry's attribute is set over the map
      of the entries before it. */
  lemma ReduceSnoc<V>(entries: seq<(string, V)>, e: (string, V), prefix: string, convert: string -> string)
    ensures ReducePropsWithPrefix(entries + [e], prefix, convert)
         == ReducePropsWithPrefix(entries, prefix, convert)[AttributeName(prefix, convert, e.0) := e.1]
  {
    assert (entries + [e])[..|entries|] == entries;
  }

  lemma SingleEntry<V>(entries: seq<(string, V)>, prefix: string, convert: string -> string)
    requires |entries| == 1
    ensures ReducePropsWithPrefix(entries, prefix, convert)
         == map[AttributeName(prefix, convert, entries[0].0) := entries[0].1]
  {
    assert entries[..0] == [];
  }

  lemma ReduceTwo<V>(a: (string, V), b: (string, V), prefix: string, convert: string -> string)
    ensures ReducePropsWithPrefix([a, b], prefix, convert)
         == map[AttributeName(prefix, convert, a.0) := a.1, AttributeName(prefix, convert, b.0) := b.1]
  {
    SingleEntry([a], prefix, convert);
    ReduceSnoc([a], b, prefix, convert);
    assert [a, b] == [a] + [b];
  }

  lemma ReduceFour<V>(a: (string, V), b: (string, V), c: (string, V), d: (string, V), prefix: string, convert: string -> string)
    ensures ReducePropsWithPrefix([a, b, c, d], prefix, convert)
         == map[AttributeName(prefix, convert, a.0) := a.1, AttributeName(prefix, convert, b.0) := b.1,
                AttributeName(prefix, convert, c.0) := c.1, AttributeName(prefix, convert, d.0) := d.1]
  {
    ReduceTwo(a, b, prefix, convert);
    ReduceSnoc([a, b], c, prefix, convert);
    assert [a, b, c] == [a, b] + [c];
    ReduceSnoc([a, b, c], d, prefix, convert);
    assert [a, b, c, d] == [a, b, c] + [d];
  }

  // The attribute names of the examples below, one converted name each.

  lemma NameAttribute(key: string)
    requires Kebabize(key) == "name"
    ensures AttributeName("", Kebabize, key) == "data-name"
    ensures AttributeName("ga-", Kebabize, key) == "data-ga-name"
  {
  }

  lemma CamelCaseAttribute(key: string)
    requires Kebabize(key) == "camel-case"
    ensures AttributeName("", Kebabize, key) == "data-camel-case"
    ensures AttributeName("ga-", Kebabize, key) == "data-ga-camel-case"
  {
  }

  lemma RegularAttribute(key: string)
    requires Kebabize(key) == "regular"
    ensures AttributeName("ga-", Kebabize, key) == "data-ga-regular"
  {
  }

  lemma SnakeCaseAttribute(key: string)
    requires Kebabize(key) == "snake-case"
    ensures AttributeName("ga-", Kebabize, key) == "data-ga-snake-case"
  {
  }

  lemma KebabCaseAttribute(key: string)
    requires Kebabize(key) == "kebab-case"
    ensures AttributeName("ga-", Kebabize, key) == "data-ga-kebab-case"
  {
  }

  // The examples below take each entry by the kebab form of its name;
  // KebabizeExamples computes those forms for the names of the test suite.

  /** Two property names with one kebab form (`camelCase` and `camel_case`):
      the later entry's value is kept. */
  lemma CollidingNamesLaterWins(a: (string, int), b: (string, int))
    requires Kebabize(a.0) == "camel-case" && Kebabize(b.0) == "camel-case"
    ensures ReducePropsWithPrefix([a, b], "", Kebabize) == map["data-camel-case" := b.1]
  {
    ReduceTwo(a, b, "", Kebabize);
    CamelCaseAttribute(a.0);
    CamelCaseAttribute(b.0);
  }

  /** With `gaPrefix="ga-"` the prefix is dropped: `name` gives `data-name`. */
  lemma GaWithDashedPrefix(entry: (string, string))
    requires Kebabize(entry.0) == "name"
    ensures GaProps(Some(TrackingProvider(TrackingProviderProps(Some("ga-"), None))), Some([entry]))
         == Success(map["data-name" := entry.1])
  {
    assert GetTrimmedPrefix(Some("ga-")) == "";
    NameAttribute(entry.0);
    SingleEntry([entry], "", Kebabize);
  }

  /** The naming-convention test: four properties under the `ga` prefix. */
  lemma GaNamingConventions(a: (string, string), b: (string, string), c: (string, string), d: (string, string))
    requires Kebabize(a.0) == "regular" && a.1 == "Regular GA prop"
    requires Kebabize(b.0) == "camel-case" && b.1 == "Camel case GA prop"
    requires Kebabize(c.0) == "snake-case" && c.1 == "Snake case GA prop"
    requires Kebabize(d.0) == "kebab-case" && d.1 == "Kebab case GA prop"
    ensures GaProps(Some(TrackingProvider(TrackingProviderProps(Some("ga"), None))), Some([a, b, c, d]))
         == Success(map[
              "data-ga-regular" := "Regular GA prop",
              "data-ga-camel-case" := "Camel case GA prop",
              "data-ga-snake-case" := "Snake case GA prop",
              "data-ga-kebab-case" := "Kebab case GA prop"])
  {
    assert GetTrimmedPrefix(Some("ga")) == "ga-";
    ReduceFour(a, b, c, d, "ga-", Kebabize);
    RegularAttribute(a.0);
    CamelCaseAttribute(b.0);
    SnakeCaseAttribute(c.0);
    KebabCaseAttribute(d.0);
  }

  // ---------------------------------------------------------------------
  // Rendering
  // ---------------------------------------------------------------------

  /** Rendering without a `ga` bag inside a default provider leaves the child
      without any attribute. */
  lemma RendersChildWithoutAttributes()
    ensures Trackable<string>(
              Some(UseTrackingCtx([TrackingProvider(TrackingProviderProps(None, None))])),
              None, Absent,
              [Element("div", map[], [Text("Hey there")])])
         == Success(Fragment([Element("div", map[], [Text("Hey there")])]))
  {
    var div: Node<string> := Element("div", map[], [Text("Hey there")]);
    TrackableWithoutGa([TrackingProvider(TrackingProviderProps(None, None))], [div]);
    assert [div][1..] == [];
    assert Elements<string>([]) == [];
    assert Elements([div]) == [div];
  }

  /** A single element child receives exactly the attributes of the bag. */
  lemma SingleChildAnnotated<V>(c: TrackingContextValues, entries: seq<(string, V)>, child: Node<V>)
    requires |entries| == 1 && IsValidElement(child)
    ensures Trackable(Some(c), Some(entries), Absent, [child])
         == Success(Fragment([CloneElement(child,
              map[AttributeName(GetTrimmedPrefix(Some(c.gaPrefix)), c.propNameConverter, entries[0].0) := entries[0].1])]))
  {
    var attrs := map[AttributeName(GetTrimmedPrefix(Some(c.gaPrefix)), c.propNameConverter, entries[0].0) := entries[0].1];
    SingleEntry(entries, GetTrimmedPrefix(Some(c.gaPrefix)), c.propNameConverter);
    assert GaProps(Some(c), Some(entries)) == Success(attrs);
    ChildrenOutput([child], attrs);
    assert [child][1..] == [];
    assert Elements<V>([]) == [];
    assert Present(MapChildren([child], attrs)) == [CloneElement(child, attrs)];
  }

  /** `ga={{ name: 'Name prop' }}` without a prefix gives `data-name`. */
  lemma GaWithoutPrefix(entry: (string, string))
    requires Kebabize(entry.0) == "name" && entry.1 == "Name prop"
    ensures Trackable(
              Some(UseTrackingCtx([TrackingProvider(TrackingProviderProps(None, None))])),
              Some([entry]), Absent,
              [Element("div", map[], [Text("Google Analytics")])])
         == Success(Fragment([Element("div", map["data-name" := "Name prop"], [Text("Google Analytics")])]))
  {
    var c := TrackingProvider(TrackingProviderProps(None, None));
    assert UseTrackingCtx([c]) == c;
    assert GetTrimmedPrefix(Some(c.gaPrefix)) == "";
    var div: Node<string> := Element("div", map[], [Text("Google Analytics")]);
    NameAttribute(entry.0);
    SingleChildAnnotated(c, [entry], div);
    var attrs := map["data-name" := "Name prop"];
    assert div.props + attrs == attrs;
  }

  /** With `gaPrefix="ga"` the same bag gives `data-ga-name`. */
  lemma GaWithPrefix(entry: (string, string))
    requires Kebabize(entry.0) == "name" && entry.1 == "Name prop"
    ensures Trackable(
              Some(UseTrackingCtx([TrackingProvider(TrackingProviderProps(Some("ga"), None))])),
              Some([entry]), Absent,
              [Element("div", map[], [Text("Google Analytics")])])
         == Success(Fragment([Element("div", map["data-ga-name" := "Name prop"], [Text("Google Analytics")])]))
  {
    var c := TrackingProvider(TrackingProviderProps(Some("ga"), None));
    assert UseTrackingCtx([c]) == c;
    assert GetTrimmedPrefix(Some(c.gaPrefix)) == "ga-";
    var div: Node<string> := Element("div", map[], [Text("Google Analytics")]);
    NameAttribute(entry.0);
    SingleChildAnnotated(c, [entry], div);
    var attrs := map["data-ga-name" := "Name prop"];
    assert div.props + attrs == attrs;
  }

  /** `component="span"` wraps the text child in a new `span`. */
  lemma StringReplacement()
    ensures Trackable<string>(Some(DefaultContext), None, Tag("span"), [Text("Hey there")])
         == Success(Single(Element("span", map[], [Text("Hey there")])))
  {
  }

  /** `component={<ReplacementComponent />}`: the replacement is the element
      whose type is the component, without props or children. It is rendered
      as that element (what the component itself renders, a `button`, is not
      modelled), and the text child is not rendered. */
  lemma ElementReplacement()
    ensures Trackable<string>(
              Some(DefaultContext), None,
              Instance(Element("ReplacementComponent", map[], [])),
              [Text("Hey there")])
         == Success(Single(Element("ReplacementComponent", map[], [])))
  {
    var replacement: Node<string> := Element("ReplacementComponent", map[], []);
    assert CloneElement(replacement, map[]) == replacement;
  }

  /** A text child in first position is not annotated and not rendered; the
      element after it is rendered unchanged. */
  lemma TextFirstChild()
    ensures Trackable(
              Some(DefaultContext), Some([("name", "x")]), Absent,
              [Text("a"), Element("div", map[], [])])
         == Success(Fragment([Element("div", map[], [])]))
  {
    var div: Node<string> := Element("div", map[], []);
    var children: seq<Node<string>> := [Text("a"), div];
    TrackableFirstNotElement(DefaultContext, Some([("name", "x")]), children);
    assert children[1..] == [div] && children[1..][1..] == [];
    assert Elements<string>([]) == [];
    assert Elements(children) == [div];
  }

  /** Without a context value the component throws. */
  lemma MissingContext()
    ensures Trackable<string>(None, None, Absent, []) == Failure(MissingProviderMessage)
  {
  }
}
