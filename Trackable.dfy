/** The `Trackable` component (src/Trackable.tsx): it turns the `ga` property
    bag into `data-*` attributes, using the prefix and the converter of the
    tracking context, and attaches them to one element: the replacement given
    in `component`, or else the first child. Rendering is modelled on values:
    a node is a text or an element, and the result is what the component
    returns. */
module TrackableComponent {
  import opened Wrappers
  import opened TrackingContext

  // ---------------------------------------------------------------------
  // Attribute names
  // ---------------------------------------------------------------------

  predicate EndsWithDash(s: string) { s != [] && s[|s| - 1] == '-' }

  /** `getTrimmedPrefix`: a non-empty prefix gets a trailing `-`; an absent
      or empty prefix, and also a prefix that already ends in `-`, give the
      empty string. */
  function GetTrimmedPrefix(prefix: Option<string>): (r: string)
    ensures r == "" || EndsWithDash(r)
    ensures r != "" <==> prefix.Some? && prefix.value != "" && !EndsWithDash(prefix.value)
    ensures r != "" ==> r == prefix.value + "-"
  {
    if prefix.Some? && prefix.value != "" && !EndsWithDash(prefix.value) then prefix.value + "-" else ""
  }

  /** The attribute that carries the property `key`. */
  function AttributeName(prefix: string, convert: string -> string, key: string): string {
    "data-" + prefix + convert(key)
  }

  /** The attribute names of the entries. */
  ghost function NamesOf<V>(entries: seq<(string, V)>, prefix: string, convert: string -> string): set<string> {
    set i | 0 <= i < |entries| :: AttributeName(prefix, convert, entries[i].0)
  }

  lemma NamesOfSnoc<V>(entries: seq<(string, V)>, prefix: string, convert: string -> string)
    requires entries != []
    ensures NamesOf(entries, prefix, convert)
         == NamesOf(entries[..|entries| - 1], prefix, convert)
            + {AttributeName(prefix, convert, entries[|entries| - 1].0)}
  {
    var n := |entries| - 1;
    forall name | name in NamesOf(entries, prefix, convert)
      ensures name in NamesOf(entries[..n], prefix, convert) + {AttributeName(prefix, convert, entries[n].0)}
    {
      var i :| 0 <= i < |entries| && name == AttributeName(prefix, convert, entries[i].0);
      if i < n { assert entries[..n][i] == entries[i]; }
    }
    forall name | name in NamesOf(entries[..n], prefix, convert)
      ensures name in NamesOf(entries, prefix, convert)
    {
      var i :| 0 <= i < n && name == AttributeName(prefix, convert, entries[..n][i].0);
      assert entries[..n][i] == entries[i];
    }
  }

  /** `reducePropsWithPrefix`: folds the entries, in order, into a fresh map
      from attribute name to value; each step spreads the map built so far
      and then sets the entry's attribute. */
  function ReducePropsWithPrefix<V>(entries: seq<(string, V)>, prefix: string, convert: string -> string)
    : (r: map<string, V>)
    ensures r.Keys == NamesOf(entries, prefix, convert)
    ensures |r| <= |entries|
  {
    if entries == [] then map[]
    else
      var n := |entries| - 1;
      NamesOfSnoc(entries, prefix, convert);
      ReducePropsWithPrefix(entries[..n], prefix, convert)[AttributeName(prefix, convert, entries[n].0) := entries[n].1]
  }

  /** Every attribute name starts with `data-` and the prefix. */
  lemma AttributeNamesArePrefixed<V>(entries: seq<(string, V)>, prefix: string, convert: string -> string)
    ensures forall name :: name in ReducePropsWithPrefix(entries, prefix, convert) ==> "data-" + prefix <= name
  {
    forall name | name in ReducePropsWithPrefix(entries, prefix, convert) ensures "data-" + prefix <= name {
      var i :| 0 <= i < |entries| && name == AttributeName(prefix, convert, entries[i].0);
      assert name == ("data-" + prefix) + convert(entries[i].0);
    }
  }

  /** When several entries convert to one attribute name, the value of the
      last of them is the one kept. */
  lemma {:induction false} ReduceLaterEntryWins<V>(entries: seq<(string, V)>, prefix: string, convert: string -> string, i: nat)
    requires i < |entries|
    requires forall j :: i < j < |entries| ==>
               AttributeName(prefix, convert, entries[j].0) != AttributeName(prefix, convert, entries[i].0)
    ensures AttributeName(prefix, convert, entries[i].0) in ReducePropsWithPrefix(entries, prefix, convert)
    ensures ReducePropsWithPrefix(entries, prefix, convert)[AttributeName(prefix, convert, entries[i].0)] == entries[i].1
  {
    var n := |entries| - 1;
    if i < n {
      ReduceLaterEntryWins(entries[..n], prefix, convert, i);
    }
  }

  /** Distinct attribute names give one attribute per entry. */
  lemma {:induction false} ReduceSizeWhenDistinct<V>(entries: seq<(string, V)>, prefix: string, convert: string -> string)
    requires forall i, j :: 0 <= i < j < |entries| ==>
               AttributeName(prefix, convert, entries[i].0) != AttributeName(prefix, convert, entries[j].0)
    ensures |ReducePropsWithPrefix(entries, prefix, convert)| == |entries|
  {
    if entries != [] {
      var n := |entries| - 1;
      ReduceSizeWhenDistinct(entries[..n], prefix, convert);
    }
  }

  // ---------------------------------------------------------------------
  // The `ga` attributes of a Trackable
  // ---------------------------------------------------------------------

  /** The message of the error thrown when no context value is available. */
  const MissingProviderMessage := "Make sure you have wrapped your app with `TrackingProvider`."

  /** The attributes computed from the context value and the `ga` bag (given
      as its ordered entries; `None` is an absent bag). Without a context
      value the component throws. */
  function GaProps<V>(ctx: Option<TrackingContextValues>, ga: Option<seq<(string, V)>>)
    : (r: Result<map<string, V>, string>)
    ensures r.Failure? <==> ctx.None?
    ensures r.Failure? ==> r.error == MissingProviderMessage
    ensures r.Success? && ga.None? ==> r.value == map[]
    ensures r.Success? ==> |r.value| <= |ga.GetOr([])|
  {
    match ctx
    case None => Failure(MissingProviderMessage)
    case Some(c) =>
      Success(ReducePropsWithPrefix(ga.GetOr([]), GetTrimmedPrefix(Some(c.gaPrefix)), c.propNameConverter))
  }

  /** Every attribute is named `data-`, the normalised prefix and the
      converted property name, for some entry of the bag. */
  lemma GaPropsNames<V>(c: TrackingContextValues, entries: seq<(string, V)>)
    ensures GaProps(Some(c), Some(entries)).Success?
    ensures GaProps(Some(c), Some(entries)).value.Keys
         == set i | 0 <= i < |entries| :: "data-" + GetTrimmedPrefix(Some(c.gaPrefix)) + c.propNameConverter(entries[i].0)
  {
  }

  /** The context read through `useContext` is never missing, so a Trackable
      inside or outside any providers computes its attributes. */
  lemma GaPropsUnderContext<V>(enclosing: seq<TrackingContextValues>, ga: Option<seq<(string, V)>>)
    ensures GaProps(Some(UseTrackingCtx(enclosing)), ga).Success?
  {
  }

  // ---------------------------------------------------------------------
  // Nodes and the replacement component
  // ---------------------------------------------------------------------

  /** A child node: plain content, or an element with props and children. */
  datatype Node<V> =
    | Text(text: string)
    | Element(tag: string, props: map<string, V>, children: seq<Node<V>>)

  /** `React.isValidElement`. */
  predicate IsValidElement<V>(n: Node<V>) { n.Element? }

  /** `React.cloneElement(element, attrs)`: the element with `attrs` spread
      over its props; its type and its children stay. */
  function CloneElement<V>(element: Node<V>, attrs: map<string, V>): (r: Node<V>)
    requires IsValidElement(element)
    ensures r.Element? && r.tag == element.tag && r.children == element.children
    ensures r.props.Keys == element.props.Keys + attrs.Keys
    ensures forall k :: k in attrs ==> r.props[k] == attrs[k]
    ensures forall k :: k in element.props && k !in attrs ==> r.props[k] == element.props[k]
  {
    element.(props := element.props + attrs)
  }

  /** The `component` prop. `Absent` stands for every falsy value but the
      empty string, which is `Tag("")`. `Instance` is any other value that is
      rendered (only an element is valid); `ComponentType` is a function or
      class component passed without being instantiated. */
  datatype Component<V> =
    | Absent
    | Tag(name: string)
    | Instance(value: Node<V>)
    | ComponentType

  predicate IsTruthy<V>(component: Component<V>) {
    match component
    case Absent => false
    case Tag(name) => name != ""
    case _ => true
  }

  /** What the component returns: `null`, one element, or a fragment whose
      children are the non-null results of `React.Children.map`. */
  datatype Rendered<V> = Nothing | Single(node: Node<V>) | Fragment(nodes: seq<Node<V>>)

  // ---------------------------------------------------------------------
  // Children mapping
  // ---------------------------------------------------------------------

  /** The callback given to `React.Children.map`. */
  function MapChild<V>(child: Node<V>, index: nat, attrs: map<string, V>): Option<Node<V>> {
    if !IsValidElement(child) then None
    else if index == 0 then Some(CloneElement(child, attrs))
    else Some(child)
  }

  /** The callback's result for each child, one slot per child. */
  function MapChildren<V>(children: seq<Node<V>>, attrs: map<string, V>): (r: seq<Option<Node<V>>>)
    ensures |r| == |children|
    ensures forall i :: 0 <= i < |r| ==> (r[i].None? <==> !IsValidElement(children[i]))
    ensures |r| > 0 && IsValidElement(children[0]) ==> r[0] == Some(CloneElement(children[0], attrs))
    ensures forall i :: 0 < i < |r| && IsValidElement(children[i]) ==> r[i] == Some(children[i])
  {
    seq(|children|, i requires 0 <= i < |children| => MapChild(children[i], i, attrs))
  }

  /** The present values, in order: what React keeps of the mapped children. */
  function Present<T>(slots: seq<Option<T>>): (r: seq<T>)
    ensures |r| <= |slots|
  {
    if slots == [] then [] else (if slots[0].Some? then [slots[0].value] else []) + Present(slots[1..])
  }

  /** The element nodes, in order. */
  function Elements<V>(nodes: seq<Node<V>>): (r: seq<Node<V>>)
    ensures |r| <= |nodes|
    ensures forall i :: 0 <= i < |r| ==> IsValidElement(r[i])
  {
    if nodes == [] then [] else (if IsValidElement(nodes[0]) then [nodes[0]] else []) + Elements(nodes[1..])
  }

  lemma {:induction false} PresentOfUnchanged<V>(slots: seq<Option<Node<V>>>, nodes: seq<Node<V>>)
    requires |slots| == |nodes|
    requires forall i :: 0 <= i < |slots| ==>
               slots[i] == (if IsValidElement(nodes[i]) then Some(nodes[i]) else None)
    ensures Present(slots) == Elements(nodes)
  {
    if slots != [] {
      PresentOfUnchanged(slots[1..], nodes[1..]);
    }
  }

  /** Without a replacement, the output holds the first child with the
      attributes if it is an element, then the other element children,
      unchanged and in order; every non-element child is dropped. */
  lemma ChildrenOutput<V>(children: seq<Node<V>>, attrs: map<string, V>)
    ensures Present(MapChildren(children, attrs))
         == if children == [] then []
            else (if IsValidElement(children[0]) then [CloneElement(children[0], attrs)] else [])
                 + Elements(children[1..])
  {
    var slots := MapChildren(children, attrs);
    if children != [] {
      PresentOfUnchanged(slots[1..], children[1..]);
    }
  }

  /** If the first child is not an element, no child gets the attributes:
      the output is exactly the element children, unchanged. */
  lemma ChildrenOutputWithoutFirstElement<V>(children: seq<Node<V>>, attrs: map<string, V>)
    requires children == [] || !IsValidElement(children[0])
    ensures Present(MapChildren(children, attrs)) == Elements(children)
  {
    ChildrenOutput(children, attrs);
  }

  // ---------------------------------------------------------------------
  // Target resolution and the component
  // ---------------------------------------------------------------------

  /** The rendering part of `Trackable`, once the attributes are known. */
  function ResolveTarget<V>(component: Component<V>, attrs: map<string, V>, children: seq<Node<V>>)
    : Rendered<V>
  {
    if !IsTruthy(component) then Fragment(Present(MapChildren(children, attrs)))
    else if component.Tag? then Single(Element(component.name, attrs, children))
    else if !(component.Instance? && IsValidElement(component.value)) then Nothing
    else Single(CloneElement(component.value, attrs))
  }

  /** A tag name gives one new element of that tag whose props are exactly
      the attributes and whose children are the original children. */
  lemma ResolveTag<V>(name: string, attrs: map<string, V>, children: seq<Node<V>>)
    requires name != ""
    ensures var r := ResolveTarget(Tag(name), attrs, children);
      r.Single? && r.node.Element? && r.node.tag == name && r.node.props == attrs && r.node.children == children
  {
  }

  /** An empty tag name is falsy: it behaves as no replacement. */
  lemma ResolveEmptyTag<V>(attrs: map<string, V>, children: seq<Node<V>>)
    ensures ResolveTarget(Tag(""), attrs, children) == ResolveTarget(Absent, attrs, children)
  {
  }

  /** A replacement that is not a valid element renders nothing. */
  lemma ResolveInvalid<V>(component: Component<V>, attrs: map<string, V>, children: seq<Node<V>>)
    requires component.ComponentType? || (component.Instance? && !IsValidElement(component.value))
    ensures ResolveTarget(component, attrs, children) == Nothing
  {
  }

  /** A valid element is cloned with the attributes: it keeps its type and
      its own children, its props become exactly its own props with the
      attributes spread over them, and the original children are discarded. */
  lemma ResolveElement<V>(element: Node<V>, attrs: map<string, V>, children: seq<Node<V>>, others: seq<Node<V>>)
    requires IsValidElement(element)
    ensures ResolveTarget(Instance(element), attrs, children) == Single(CloneElement(element, attrs))
    ensures var r := ResolveTarget(Instance(element), attrs, children);
      && r.Single? && r.node.Element? && r.node.tag == element.tag && r.node.children == element.children
      && r.node.props.Keys == element.props.Keys + attrs.Keys
      && (forall k :: k in attrs ==> r.node.props[k] == attrs[k])
      && (forall k :: k in element.props && k !in attrs ==> r.node.props[k] == element.props[k])
      && r == ResolveTarget(Instance(element), attrs, others)
  {
  }

  /** `Trackable`: the attributes first (which may throw), then the target. */
  function Trackable<V>(
    ctx: Option<TrackingContextValues>,
    ga: Option<seq<(string, V)>>,
    component: Component<V>,
    children: seq<Node<V>>)
    : (r: Result<Rendered<V>, string>)
    ensures ctx.None? ==> r == Failure(MissingProviderMessage)
    ensures ctx.Some? ==> r.Success?
  {
    match GaProps(ctx, ga)
    case Failure(e) => Failure(e)
    case Success(attrs) => Success(ResolveTarget(component, attrs, children))
  }

  /** Without a `ga` bag and without a replacement, the children render with
      nothing added: the output is exactly their element nodes. */
  lemma TrackableWithoutGa<V>(enclosing: seq<TrackingContextValues>, children: seq<Node<V>>)
    ensures Trackable(Some(UseTrackingCtx(enclosing)), None, Absent, children) == Success(Fragment(Elements(children)))
  {
    var attrs: map<string, V> := map[];
    var slots := MapChildren(children, attrs);
    if children != [] {
      if IsValidElement(children[0]) {
        assert CloneElement(children[0], attrs) == children[0];
        assert Elements(children) == [children[0]] + Elements(children[1..]);
      } else {
        assert Elements(children) == Elements(children[1..]);
      }
    }
    ChildrenOutput(children, attrs);
  }

  /** If the first child is not an element, the `ga` attributes appear on no
      rendered node: the output is exactly the element children. */
  lemma TrackableFirstNotElement<V>(c: TrackingContextValues, ga: Option<seq<(string, V)>>, children: seq<Node<V>>)
    requires children == [] || !IsValidElement(children[0])
    ensures Trackable(Some(c), ga, Absent, children) == Success(Fragment(Elements(children)))
  {
    ChildrenOutputWithoutFirstElement(children, GaProps(Some(c), ga).value);
  }
}
