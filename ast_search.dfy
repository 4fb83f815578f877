/**
 * The search helpers: building the XPath-style selector `Tag[c1 and c2 ...]` from a
 * search-attribute record, and collecting a contract's inherited contracts.
 */
module AstSearch {
  import opened Wrappers
  import opened JsStrings
  import opened MiscUtils
  import Numeric

  /**
   * An attribute value of a search record: a number is emitted bare; a string, a
   * missing value or a nested record is emitted quoted, as JavaScript converts it to
   * text (`"undefined"`, `"[object Object]"`).
   */
  datatype AttrValue = Num(n: int) | Text(s: string) | Missing | Record

  /**
   * The plain part of a search record: attributes in key order, then the `children`
   * and `ancestors` searches.
   */
  datatype Conditions = Conditions(attrs: seq<(string, AttrValue)>, children: seq<Child>, ancestors: seq<Child>)

  /** A full search record: its plain part plus the optional `any`, `not` and `notAny` groups. */
  datatype Search = Search(conds: Conditions, any: Option<OneOrMany<Conditions>>,
                           not: Option<OneOrMany<Conditions>>, notAny: Option<OneOrMany<Conditions>>)

  /** An entry of `children` or `ancestors`: a tag and the rest of its search record. */
  datatype Child = Child(tag: string, search: Search)

  /** `wrapWithSeparators`: "" for no items, otherwise `l`, the items joined by `separator`, and `r`. */
  function WrapWithSeparators(props: seq<string>, separator: string, l: string, r: string): string {
    if |props| == 0 then "" else l + Join(props, separator) + r
  }

  /** With a non-empty left delimiter, the wrapped text is empty exactly when there are no items. */
  lemma WrapEmpty(props: seq<string>, separator: string, l: string, r: string)
    requires l != ""
    ensures WrapWithSeparators(props, separator, l, r) == "" <==> props == []
    ensures props != [] ==> StartsWith(WrapWithSeparators(props, separator, l, r), l)
  {
    if props != [] {
      var w := WrapWithSeparators(props, separator, l, r);
      assert w == l + (Join(props, separator) + r);
      assert w[..|l|] == l;
    }
  }

  /** The text of an attribute value: a number's decimal numeral, or the quoted string. */
  function ValueText(v: AttrValue): string {
    match v
    case Num(n) => Numeric.DecimalString(n)
    case Text(s) => "\"" + s + "\""
    case Missing => "\"undefined\""
    case Record => "\"[object Object]\""
  }

  /** `key=value`, with `@` put in front of a key that does not already start with it. */
  function AttrSelector(key: string, value: AttrValue): (r: string)
    ensures StartsWith(r, "@")
    ensures StartsWith(key, "@") ==> r == key + "=" + ValueText(value)
    ensures !StartsWith(key, "@") ==> r == "@" + key + "=" + ValueText(value)
  {
    var k := if |key| > 0 && key[0] == '@' then key else "@" + key;
    assert (k + "=" + ValueText(value))[..1] == k[..1];
    k + "=" + ValueText(value)
  }

  /**
   * `combineSearchProperties`: one selector per attribute in key order, then
   * `child::` and `ancestor::` selectors for the nested searches, in their order.
   */
  function CombineSearchProperties(c: Conditions): seq<string>
    decreases c, 1
  {
    seq(|c.attrs|, i requires 0 <= i < |c.attrs| => AttrSelector(c.attrs[i].0, c.attrs[i].1)) +
    AxisSelectors(c, c.children, "child::") + AxisSelectors(c, c.ancestors, "ancestor::")
  }

  /** One selector per nested search of `c` (its children or its ancestors), the axis in front. */
  function AxisSelectors(c: Conditions, nested: seq<Child>, axis: string): (r: seq<string>)
    requires nested == c.children || nested == c.ancestors
    ensures |r| == |nested|
    decreases c, 0
  {
    seq(|nested|, i requires 0 <= i < |nested| =>
      assert nested[i] in nested;
      axis + GetSolPropertySelectors(nested[i].tag, nested[i].search))
  }

  /** The records of an optional group: `coerceArray(group ?? [])`. */
  function GroupItems(group: Option<OneOrMany<Conditions>>): seq<Conditions> {
    CoerceArray(if group.Some? then group.value else Many([]))
  }

  /** A record of a group is a proper part of the group. */
  lemma GroupItemBelow(group: Option<OneOrMany<Conditions>>, i: nat)
    requires i < |GroupItems(group)|
    ensures GroupItems(group)[i] < group
  {
    match group
    case Some(Many(cs)) => assert cs[i] in cs;
    case Some(One(c)) =>
  }

  /** One wrapped selector per record of an optional group, in order. */
  function GroupSelectors(group: Option<OneOrMany<Conditions>>, separator: string, l: string): (r: seq<string>)
    ensures |r| == |GroupItems(group)|
    decreases group, 0
  {
    var items := GroupItems(group);
    seq(|items|, i requires 0 <= i < |items| =>
      GroupItemBelow(group, i);
      WrapWithSeparators(CombineSearchProperties(items[i]), separator, l, ")"))
  }

  /** The conditions of a search record before empty ones are dropped. */
  function AndProps(s: Search): seq<string>
    decreases s, 0
  {
    CombineSearchProperties(s.conds) +
    GroupSelectors(s.any, "or", "(") +
    GroupSelectors(s.not, "and", "not(") +
    GroupSelectors(s.notAny, "or", "not(")
  }

  /** `filter(Boolean)` on strings: drops the empty ones, keeping the order. */
  function NonEmpty(ss: seq<string>): (r: seq<string>)
    ensures forall x :: x in r <==> x in ss && x != ""
    ensures |r| <= |ss|
  {
    if |ss| == 0 then []
    else if ss[0] == "" then NonEmpty(ss[1..])
    else [ss[0]] + NonEmpty(ss[1..])
  }

  /** `getSolPropertySelectors`: the tag, followed by `[c1andc2...]` when there is any condition. */
  function GetSolPropertySelectors(tag: string, s: Search): string
    decreases s, 1
  {
    tag + WrapWithSeparators(NonEmpty(AndProps(s)), "and", "[", "]")
  }

  /** The query `find` runs: `//` and the selector. */
  function FindQuery(tag: string, s: Search): string {
    "//" + GetSolPropertySelectors(tag, s)
  }

  /**
   * The selector is the bare tag exactly when no condition is left after dropping
   * empty groups; otherwise it is the tag followed by `[`.
   */
  lemma SelectorShape(tag: string, s: Search)
    ensures GetSolPropertySelectors(tag, s) == tag <==> NonEmpty(AndProps(s)) == []
    ensures NonEmpty(AndProps(s)) != [] ==> StartsWith(GetSolPropertySelectors(tag, s), tag + "[")
  {
    var props := NonEmpty(AndProps(s));
    WrapEmpty(props, "and", "[", "]");
    var w := WrapWithSeparators(props, "and", "[", "]");
    if props != [] {
      assert (tag + w)[..|tag| + 1] == tag + w[..1];
    }
  }

  /** Each attribute gives one condition, in key order, ahead of the nested searches. */
  lemma CombineStartsWithAttributes(c: Conditions)
    ensures |CombineSearchProperties(c)| == |c.attrs| + |c.children| + |c.ancestors|
    ensures forall i :: 0 <= i < |c.attrs| ==>
      CombineSearchProperties(c)[i] == AttrSelector(c.attrs[i].0, c.attrs[i].1)
    ensures forall i :: 0 <= i < |c.children| ==>
      CombineSearchProperties(c)[|c.attrs| + i] ==
        "child::" + GetSolPropertySelectors(c.children[i].tag, c.children[i].search)
    ensures forall i :: 0 <= i < |c.ancestors| ==>
      CombineSearchProperties(c)[|c.attrs| + |c.children| + i] ==
        "ancestor::" + GetSolPropertySelectors(c.ancestors[i].tag, c.ancestors[i].search)
  {
  }

  /** A group with no conditions gives "", which the final filter drops. */
  lemma EmptyGroupDropped(c: Conditions, separator: string, l: string)
    requires l != ""
    ensures GroupSelectors(Some(One(c)), separator, l) == [WrapWithSeparators(CombineSearchProperties(c), separator, l, ")")]
    ensures CombineSearchProperties(c) == [] ==> NonEmpty(GroupSelectors(Some(One(c)), separator, l)) == []
    ensures CombineSearchProperties(c) != [] ==> StartsWith(GroupSelectors(Some(One(c)), separator, l)[0], l)
  {
    WrapEmpty(CombineSearchProperties(c), separator, l, ")");
  }

  /**
   * `combineSearchProperties` as the source runs it: the attribute selectors, then one
   * pushed `child::` selector per child and one `ancestor::` selector per ancestor.
   */
  method CombineProperties(c: Conditions) returns (r: seq<string>)
    ensures r == CombineSearchProperties(c)
    decreases c, 1
  {
    r := seq(|c.attrs|, i requires 0 <= i < |c.attrs| => AttrSelector(c.attrs[i].0, c.attrs[i].1));
    r := PushAxis(r, c, c.children, "child::");
    r := PushAxis(r, c, c.ancestors, "ancestor::");
  }

  /** The `forEach` over `children` or `ancestors`: pushes one selector per nested search. */
  method PushAxis(props: seq<string>, c: Conditions, nested: seq<Child>, axis: string) returns (r: seq<string>)
    requires nested == c.children || nested == c.ancestors
    ensures r == props + AxisSelectors(c, nested, axis)
    decreases c, 0
  {
    ghost var selectors := AxisSelectors(c, nested, axis);
    r := props;
    var i := 0;
    while i < |nested|
      invariant 0 <= i <= |nested|
      invariant r == props + selectors[..i]
    {
      assert nested[i] in nested;
      var selector := BuildSelector(nested[i].tag, nested[i].search);
      r := r + [axis + selector];
      PrefixSnoc(selectors, i);
      i := i + 1;
    }
    PrefixAll(selectors);
  }

  /** The `forEach` over one group: pushes each record's wrapped selector onto `props`. */
  method PushGroup(props: seq<string>, group: Option<OneOrMany<Conditions>>, separator: string, l: string)
      returns (r: seq<string>)
    ensures r == props + GroupSelectors(group, separator, l)
    decreases group, 0
  {
    var items := GroupItems(group);
    ghost var selectors := GroupSelectors(group, separator, l);
    r := props;
    var i := 0;
    while i < |items|
      invariant 0 <= i <= |items|
      invariant r == props + selectors[..i]
    {
      GroupItemBelow(group, i);
      var combined := CombineProperties(items[i]);
      r := r + [WrapWithSeparators(combined, separator, l, ")")];
      PrefixSnoc(selectors, i);
      i := i + 1;
    }
    PrefixAll(selectors);
  }

  /** A prefix one element longer. */
  lemma PrefixSnoc<T>(s: seq<T>, i: nat)
    requires i < |s|
    ensures s[..i + 1] == s[..i] + [s[i]]
  {
  }

  /** The prefix of full length. */
  lemma PrefixAll<T>(s: seq<T>)
    ensures s[..|s|] == s
  {
  }

  /**
   * `getSolPropertySelectors` as the source runs it: the plain conditions, then the
   * pushed `any`, `not` and `notAny` groups, the empty ones dropped, wrapped after the tag.
   */
  method BuildSelector(tag: string, s: Search) returns (r: string)
    ensures r == GetSolPropertySelectors(tag, s)
    decreases s, 1
  {
    var andProps := CombineProperties(s.conds);
    andProps := PushGroup(andProps, s.any, "or", "(");
    andProps := PushGroup(andProps, s.not, "and", "not(");
    andProps := PushGroup(andProps, s.notAny, "or", "not(");
    r := tag + WrapWithSeparators(NonEmpty(andProps), "and", "[", "]");
  }

  /** The `kind` of a contract definition. */
  datatype ContractKind = KindContract | KindInterface | KindLibrary

  /**
   * What the inheritance walk reads of a contract definition: its name, its kind and
   * the ids its inheritance specifiers' base types refer to, in order.
   */
  datatype ContractInfo = ContractInfo(name: string, kind: ContractKind, bases: seq<int>)

  /**
   * A rank that decreases from each contract to each of its bases: the inheritance
   * graph has no cycle (otherwise the walk would not end).
   */
  ghost predicate Ranked(contracts: map<int, ContractInfo>, rank: map<int, nat>) {
    forall x :: x in contracts ==>
      (x in rank && forall b :: b in contracts[x].bases && b in contracts ==> b in rank && rank[b] < rank[x])
  }

  /** Every base of every contract resolves to a contract definition. */
  predicate Resolved(contracts: map<int, ContractInfo>) {
    forall x :: x in contracts ==> forall b :: b in contracts[x].bases ==> b in contracts
  }

  /** The filter of the walk: every resolved base with `allowInterfaces`, only contracts without. */
  predicate Kept(contracts: map<int, ContractInfo>, b: int, allowInterfaces: bool)
    requires b in contracts
  {
    allowInterfaces || contracts[b].kind == KindContract
  }

  /** The bases that pass the filter, in order. */
  function KeptBases(contracts: map<int, ContractInfo>, bases: seq<int>, allowInterfaces: bool): (r: seq<int>)
    requires forall b :: b in bases ==> b in contracts
    ensures forall k :: 0 <= k < |r| ==> r[k] in bases && r[k] in contracts && Kept(contracts, r[k], allowInterfaces)
    ensures forall b :: b in bases && Kept(contracts, b, allowInterfaces) ==> b in r
  {
    if |bases| == 0 then []
    else if Kept(contracts, bases[0], allowInterfaces) then [bases[0]] + KeptBases(contracts, bases[1..], allowInterfaces)
    else KeptBases(contracts, bases[1..], allowInterfaces)
  }

  /** Every id of `ids` is a contract definition. */
  predicate AllIn(contracts: map<int, ContractInfo>, ids: seq<int>) {
    forall k :: 0 <= k < |ids| ==> ids[k] in contracts
  }

  /** Some entry of `parents` has the given name: the `parents.find` test. */
  predicate HasName(contracts: map<int, ContractInfo>, parents: seq<int>, name: string)
    requires AllIn(contracts, parents)
  {
    exists k :: 0 <= k < |parents| && contracts[parents[k]].name == name
  }

  /** A name present stays present when entries are pushed. */
  lemma HasNameGrows(contracts: map<int, ContractInfo>, before: seq<int>, after: seq<int>, name: string)
    requires AllIn(contracts, after) && before <= after
    requires AllIn(contracts, before) && HasName(contracts, before, name)
    ensures HasName(contracts, after, name)
  {
    var k :| 0 <= k < |before| && contracts[before[k]].name == name;
    assert after[k] == before[k];
  }

  /** The names of the contracts in `ids`. */
  ghost function NamesOf(contracts: map<int, ContractInfo>, ids: seq<int>): set<string>
    requires AllIn(contracts, ids)
  {
    set k | 0 <= k < |ids| :: contracts[ids[k]].name
  }

  /** The names of all contracts. */
  ghost function AllNames(contracts: map<int, ContractInfo>): set<string> {
    set x | x in contracts :: contracts[x].name
  }

  /** Pushing a contract whose name is new takes exactly one name off those not yet present. */
  lemma PushNewName(contracts: map<int, ContractInfo>, parents: seq<int>, a: int)
    requires AllIn(contracts, parents) && a in contracts
    requires !HasName(contracts, parents, contracts[a].name)
    ensures AllIn(contracts, parents + [a])
    ensures |AllNames(contracts) - NamesOf(contracts, parents + [a])| + 1 ==
            |AllNames(contracts) - NamesOf(contracts, parents)|
  {
    var n := contracts[a].name;
    var after := parents + [a];
    assert after[|parents|] == a;
    assert forall k :: 0 <= k < |parents| ==> after[k] == parents[k];
    assert NamesOf(contracts, after) == NamesOf(contracts, parents) + {n};
    var missingBefore := AllNames(contracts) - NamesOf(contracts, parents);
    var missingAfter := AllNames(contracts) - NamesOf(contracts, after);
    assert n in AllNames(contracts);
    assert missingBefore == missingAfter + {n};
  }

  /** The entries from position `n` on have names that no earlier entry has. */
  predicate NamesNewFrom(contracts: map<int, ContractInfo>, ids: seq<int>, n: nat)
    requires AllIn(contracts, ids)
  {
    forall j, k :: n <= j < |ids| && 0 <= k < j ==> contracts[ids[k]].name != contracts[ids[j]].name
  }

  /** The names of the first `j` ancestors are all present in `ids`. */
  predicate NamesPresent(contracts: map<int, ContractInfo>, ids: seq<int>, ancestors: seq<int>, j: nat)
    requires AllIn(contracts, ids) && AllIn(contracts, ancestors) && j <= |ancestors|
  {
    forall k :: 0 <= k < j ==> HasName(contracts, ids, contracts[ancestors[k]].name)
  }

  /** The number of names still missing plus the number of entries. */
  ghost function PushMeasure(contracts: map<int, ContractInfo>, ids: seq<int>): nat
    requires AllIn(contracts, ids)
  {
    |AllNames(contracts) - NamesOf(contracts, ids)| + |ids|
  }

  /** One push of the inner loop keeps its invariants. */
  lemma PushStep(contracts: map<int, ContractInfo>, parents: seq<int>, r: seq<int>, ancestors: seq<int>, j: nat)
    requires AllIn(contracts, r) && AllIn(contracts, ancestors) && parents <= r && j < |ancestors|
    requires forall k :: |parents| <= k < |r| ==> r[k] in ancestors
    requires NamesNewFrom(contracts, r, |parents|) && NamesPresent(contracts, r, ancestors, j)
    requires !HasName(contracts, r, contracts[ancestors[j]].name)
    ensures AllIn(contracts, r + [ancestors[j]]) && parents <= r + [ancestors[j]]
    ensures forall k :: |parents| <= k < |r| + 1 ==> (r + [ancestors[j]])[k] in ancestors
    ensures NamesNewFrom(contracts, r + [ancestors[j]], |parents|)
    ensures NamesPresent(contracts, r + [ancestors[j]], ancestors, j + 1)
    ensures PushMeasure(contracts, r + [ancestors[j]]) == PushMeasure(contracts, r)
  {
    var a := ancestors[j];
    PushNewName(contracts, r, a);
    PushKeepsNamesNew(contracts, |parents|, r, a);
    PushKeepsPresent(contracts, r, ancestors, j);
    assert forall k :: |parents| <= k < |r| ==> (r + [a])[k] == r[k];
  }

  /** Pushing an entry whose name is new keeps every entry from `n` on new. */
  lemma PushKeepsNamesNew(contracts: map<int, ContractInfo>, n: nat, r: seq<int>, a: int)
    requires AllIn(contracts, r) && a in contracts && n <= |r|
    requires NamesNewFrom(contracts, r, n) && !HasName(contracts, r, contracts[a].name)
    ensures AllIn(contracts, r + [a])
    ensures NamesNewFrom(contracts, r + [a], n)
  {
    var r' := r + [a];
    assert forall k :: 0 <= k < |r| ==> r'[k] == r[k];
    assert r'[|r|] == a;
  }

  /** Pushing the `j`-th ancestor puts its name among the present ones. */
  lemma PushKeepsPresent(contracts: map<int, ContractInfo>, r: seq<int>, ancestors: seq<int>, j: nat)
    requires AllIn(contracts, r) && AllIn(contracts, ancestors) && j < |ancestors|
    requires NamesPresent(contracts, r, ancestors, j)
    ensures AllIn(contracts, r + [ancestors[j]])
    ensures NamesPresent(contracts, r + [ancestors[j]], ancestors, j + 1)
  {
    var r' := r + [ancestors[j]];
    assert forall k :: 0 <= k < |r| ==> r'[k] == r[k];
    forall k | 0 <= k < j ensures HasName(contracts, r', contracts[ancestors[k]].name) {
      HasNameGrows(contracts, r, r', contracts[ancestors[k]].name);
    }
    assert r'[|r|] == ancestors[j];
  }

  /**
   * The inner `forEach` of the walk: pushes, in order, each ancestor whose name is not
   * yet present; every pushed entry brings a new name.
   */
  method PushNewAncestors(contracts: map<int, ContractInfo>, parents: seq<int>, ancestors: seq<int>)
      returns (r: seq<int>)
    requires AllIn(contracts, parents) && AllIn(contracts, ancestors)
    ensures AllIn(contracts, r) && parents <= r
    ensures forall k :: |parents| <= k < |r| ==> r[k] in ancestors
    ensures NamesNewFrom(contracts, r, |parents|)
    ensures NamesPresent(contracts, r, ancestors, |ancestors|)
    ensures PushMeasure(contracts, r) == PushMeasure(contracts, parents)
  {
    r := parents;
    var j := 0;
    while j < |ancestors|
      invariant 0 <= j <= |ancestors|
      invariant AllIn(contracts, r) && parents <= r
      invariant forall k :: |parents| <= k < |r| ==> r[k] in ancestors
      invariant NamesNewFrom(contracts, r, |parents|)
      invariant NamesPresent(contracts, r, ancestors, j)
      invariant PushMeasure(contracts, r) == PushMeasure(contracts, parents)
    {
      var ancestor := ancestors[j];
      if !HasName(contracts, r, contracts[ancestor].name) {
        PushStep(contracts, parents, r, ancestors, j);
        r := r + [ancestor];
      }
      j := j + 1;
    }
  }

  /** Each contract of `chain` after the first is a resolved, kept base of the one before it. */
  ghost predicate KeptChain(contracts: map<int, ContractInfo>, chain: seq<int>, allowInterfaces: bool)
    decreases |chain|
  {
    |chain| <= 1 ||
    (KeptLink(contracts, chain[0], chain[1], allowInterfaces) && KeptChain(contracts, chain[1..], allowInterfaces))
  }

  /** `b` is a resolved, kept base of `c`. */
  ghost predicate KeptLink(contracts: map<int, ContractInfo>, c: int, b: int, allowInterfaces: bool) {
    c in contracts && b in contracts[c].bases && b in contracts && Kept(contracts, b, allowInterfaces)
  }

  /** `x` is reached from `id` by one or more steps from a contract to one of its kept bases. */
  ghost predicate Ancestor(contracts: map<int, ContractInfo>, id: int, x: int, allowInterfaces: bool) {
    exists chain :: KeptChain(contracts, chain, allowInterfaces) &&
      |chain| >= 2 && chain[0] == id && chain[|chain| - 1] == x
  }

  /** Every entry of `ids` is an ancestor of `id`. */
  ghost predicate AllAncestors(contracts: map<int, ContractInfo>, id: int, ids: seq<int>, allowInterfaces: bool) {
    forall k :: 0 <= k < |ids| ==> Ancestor(contracts, id, ids[k], allowInterfaces)
  }

  /** A kept base is an ancestor. */
  lemma AncestorBase(contracts: map<int, ContractInfo>, id: int, b: int, allowInterfaces: bool)
    requires id in contracts && b in contracts[id].bases && b in contracts && Kept(contracts, b, allowInterfaces)
    ensures Ancestor(contracts, id, b, allowInterfaces)
  {
    var chain := [id, b];
    assert chain[1..] == [b];
    assert KeptChain(contracts, chain, allowInterfaces);
  }

  /** Two chains that meet at a contract join into one. */
  lemma {:induction false} ChainJoin(contracts: map<int, ContractInfo>, c1: seq<int>, c2: seq<int>, allowInterfaces: bool)
    requires KeptChain(contracts, c1, allowInterfaces) && KeptChain(contracts, c2, allowInterfaces)
    requires |c1| >= 1 && |c2| >= 1 && c1[|c1| - 1] == c2[0]
    ensures KeptChain(contracts, c1 + c2[1..], allowInterfaces)
    decreases |c1|
  {
    if |c1| == 1 {
      assert c1 + c2[1..] == c2;
    } else {
      ChainJoin(contracts, c1[1..], c2, allowInterfaces);
      assert (c1 + c2[1..])[1..] == c1[1..] + c2[1..];
    }
  }

  /** An ancestor of an ancestor is an ancestor. */
  lemma AncestorTrans(contracts: map<int, ContractInfo>, id: int, y: int, x: int, allowInterfaces: bool)
    requires Ancestor(contracts, id, y, allowInterfaces) && Ancestor(contracts, y, x, allowInterfaces)
    ensures Ancestor(contracts, id, x, allowInterfaces)
  {
    var c1 :| KeptChain(contracts, c1, allowInterfaces) && |c1| >= 2 && c1[0] == id && c1[|c1| - 1] == y;
    var c2 :| KeptChain(contracts, c2, allowInterfaces) && |c2| >= 2 && c2[0] == y && c2[|c2| - 1] == x;
    ChainJoin(contracts, c1, c2, allowInterfaces);
    var chain := c1 + c2[1..];
    assert chain[|chain| - 1] == x;
  }

  /** The ranks of all of `ids` are below the rank of `id`. */
  ghost predicate RankedBelow(contracts: map<int, ContractInfo>, rank: map<int, nat>, ids: seq<int>, id: int)
    requires id in rank
  {
    forall k :: 0 <= k < |ids| ==> ids[k] in contracts && ids[k] in rank && rank[ids[k]] < rank[id]
  }

  /** Each of the first `i` entries has resolved bases whose kept ones all have their name present. */
  predicate ClosedUpTo(contracts: map<int, ContractInfo>, ids: seq<int>, i: nat, allowInterfaces: bool)
    requires AllIn(contracts, ids) && i <= |ids|
  {
    forall m :: 0 <= m < i ==>
      (forall b :: b in contracts[ids[m]].bases ==> b in contracts) &&
      forall b :: b in KeptBases(contracts, contracts[ids[m]].bases, allowInterfaces) ==>
        HasName(contracts, ids, contracts[b].name)
  }

  /** Pushing entries keeps the entries already closed closed. */
  lemma ClosedGrows(contracts: map<int, ContractInfo>, before: seq<int>, after: seq<int>, i: nat, allowInterfaces: bool)
    requires AllIn(contracts, before) && AllIn(contracts, after) && before <= after && i <= |before|
    requires ClosedUpTo(contracts, before, i, allowInterfaces)
    ensures ClosedUpTo(contracts, after, i, allowInterfaces)
  {
    forall m, b | 0 <= m < i && b in KeptBases(contracts, contracts[after[m]].bases, allowInterfaces)
      ensures HasName(contracts, after, contracts[b].name)
    {
      assert after[m] == before[m];
      HasNameGrows(contracts, before, after, contracts[b].name);
    }
  }

  /** Every entry passes the kind filter. */
  predicate AllKept(contracts: map<int, ContractInfo>, ids: seq<int>, allowInterfaces: bool)
    requires AllIn(contracts, ids)
  {
    forall k :: 0 <= k < |ids| ==> Kept(contracts, ids[k], allowInterfaces)
  }

  /** The invariant of the walk's outer loop over `parents`, `i` entries done. */
  ghost predicate WalkInvariant(contracts: map<int, ContractInfo>, rank: map<int, nat>, id: int, allowInterfaces: bool,
                                direct: seq<int>, parents: seq<int>, i: nat)
    requires id in rank
  {
    i <= |parents| && AllIn(contracts, parents) && RankedBelow(contracts, rank, parents, id) &&
    AllKept(contracts, parents, allowInterfaces) && direct <= parents &&
    NamesNewFrom(contracts, parents, |direct|) && ClosedUpTo(contracts, parents, i, allowInterfaces) &&
    AllAncestors(contracts, id, parents, allowInterfaces)
  }

  /** What the walk of one contract promises, besides not failing when every base resolves. */
  ghost predicate WalkResult(contracts: map<int, ContractInfo>, rank: map<int, nat>, id: int, allowInterfaces: bool,
                             r: seq<int>)
    requires id in contracts && id in rank
  {
    (forall b :: b in contracts[id].bases ==> b in contracts) &&
    WalkInvariant(contracts, rank, id, allowInterfaces, KeptBases(contracts, contracts[id].bases, allowInterfaces), r, |r|)
  }

  /** The walk starts from the kept direct bases, none of them done yet. */
  lemma WalkStart(contracts: map<int, ContractInfo>, rank: map<int, nat>, id: int, allowInterfaces: bool)
    requires id in contracts && Ranked(contracts, rank)
    requires forall b :: b in contracts[id].bases ==> b in contracts
    ensures var direct := KeptBases(contracts, contracts[id].bases, allowInterfaces);
      WalkInvariant(contracts, rank, id, allowInterfaces, direct, direct, 0)
  {
    var direct := KeptBases(contracts, contracts[id].bases, allowInterfaces);
    forall k | 0 <= k < |direct|
      ensures direct[k] in contracts[id].bases && Ancestor(contracts, id, direct[k], allowInterfaces)
    {
      AncestorBase(contracts, id, direct[k], allowInterfaces);
    }
  }

  /** A walk whose every entry is done has its result, and its entries are ancestors. */
  lemma WalkDone(contracts: map<int, ContractInfo>, rank: map<int, nat>, id: int, allowInterfaces: bool,
                 direct: seq<int>, parents: seq<int>)
    requires id in contracts && id in rank && forall b :: b in contracts[id].bases ==> b in contracts
    requires direct == KeptBases(contracts, contracts[id].bases, allowInterfaces)
    requires WalkInvariant(contracts, rank, id, allowInterfaces, direct, parents, |parents|)
    ensures WalkResult(contracts, rank, id, allowInterfaces, parents)
    ensures AllAncestors(contracts, id, parents, allowInterfaces)
  {
  }

  /** One round of the outer loop keeps its invariant and pushes only new names. */
  lemma WalkStep(contracts: map<int, ContractInfo>, rank: map<int, nat>, id: int, allowInterfaces: bool,
                 direct: seq<int>, before: seq<int>, i: nat, ancestors: seq<int>, after: seq<int>)
    requires id in rank && WalkInvariant(contracts, rank, id, allowInterfaces, direct, before, i) && i < |before|
    requires before[i] in contracts && before[i] in rank
    requires WalkResult(contracts, rank, before[i], allowInterfaces, ancestors)
    requires AllIn(contracts, after) && before <= after
    requires forall k :: |before| <= k < |after| ==> after[k] in ancestors
    requires NamesNewFrom(contracts, after, |before|)
    requires NamesPresent(contracts, after, ancestors, |ancestors|)
    ensures WalkInvariant(contracts, rank, id, allowInterfaces, direct, after, i + 1)
  {
    forall k | 0 <= k < |before| ensures after[k] == before[k] {}
    WalkStepRanked(contracts, rank, id, allowInterfaces, before, i, ancestors, after);
    WalkStepNamesNew(contracts, |direct|, before, after);
    ClosedGrows(contracts, before, after, i, allowInterfaces);
    WalkStepClosed(contracts, rank, allowInterfaces, before, i, ancestors, after);
    WalkStepAncestors(contracts, rank, id, allowInterfaces, before, i, ancestors, after);
  }

  /** The entries pushed in one round are ancestors of entry `i`, itself an ancestor of `id`. */
  lemma WalkStepAncestors(contracts: map<int, ContractInfo>, rank: map<int, nat>, id: int, allowInterfaces: bool,
                          before: seq<int>, i: nat, ancestors: seq<int>, after: seq<int>)
    requires AllAncestors(contracts, id, before, allowInterfaces) && i < |before|
    requires before[i] in contracts && before[i] in rank
    requires WalkResult(contracts, rank, before[i], allowInterfaces, ancestors)
    requires before <= after
    requires forall k :: |before| <= k < |after| ==> after[k] in ancestors
    ensures AllAncestors(contracts, id, after, allowInterfaces)
  {
    assert AllAncestors(contracts, before[i], ancestors, allowInterfaces);
    forall k | 0 <= k < |after|
      ensures Ancestor(contracts, id, after[k], allowInterfaces)
    {
      if k < |before| {
        assert after[k] == before[k];
      } else {
        var m :| 0 <= m < |ancestors| && ancestors[m] == after[k];
        AncestorTrans(contracts, id, before[i], after[k], allowInterfaces);
      }
    }
  }

  /** The entries pushed in one round come from a walk below `id`, so they are ranked below it and kept. */
  lemma WalkStepRanked(contracts: map<int, ContractInfo>, rank: map<int, nat>, id: int, allowInterfaces: bool,
                       before: seq<int>, i: nat, ancestors: seq<int>, after: seq<int>)
    requires id in rank && AllIn(contracts, before) && RankedBelow(contracts, rank, before, id)
    requires AllKept(contracts, before, allowInterfaces) && i < |before|
    requires before[i] in contracts && before[i] in rank
    requires WalkResult(contracts, rank, before[i], allowInterfaces, ancestors)
    requires AllIn(contracts, after) && before <= after
    requires forall k :: |before| <= k < |after| ==> after[k] in ancestors
    ensures RankedBelow(contracts, rank, after, id) && AllKept(contracts, after, allowInterfaces)
  {
    forall k | 0 <= k < |after|
      ensures after[k] in rank && rank[after[k]] < rank[id] && Kept(contracts, after[k], allowInterfaces)
    {
      if k < |before| {
        assert after[k] == before[k];
      } else {
        var m :| 0 <= m < |ancestors| && ancestors[m] == after[k];
        assert rank[ancestors[m]] < rank[before[i]];
      }
    }
  }

  /** Names new from `n` in the entries before, and new from there on in the pushed ones, are new from `n`. */
  lemma WalkStepNamesNew(contracts: map<int, ContractInfo>, n: nat, before: seq<int>, after: seq<int>)
    requires AllIn(contracts, before) && AllIn(contracts, after) && before <= after
    requires NamesNewFrom(contracts, before, n) && NamesNewFrom(contracts, after, |before|)
    ensures NamesNewFrom(contracts, after, n)
  {
    forall j, k | n <= j < |after| && 0 <= k < j
      ensures contracts[after[k]].name != contracts[after[j]].name
    {
      if j < |before| {
        assert after[j] == before[j] && after[k] == before[k];
      }
    }
  }

  /** After its round, the kept bases of entry `i` have their names present. */
  lemma WalkStepClosed(contracts: map<int, ContractInfo>, rank: map<int, nat>, allowInterfaces: bool,
                       before: seq<int>, i: nat, ancestors: seq<int>, after: seq<int>)
    requires AllIn(contracts, before) && AllIn(contracts, after) && before <= after && i < |before|
    requires before[i] in contracts && before[i] in rank
    requires WalkResult(contracts, rank, before[i], allowInterfaces, ancestors)
    requires NamesPresent(contracts, after, ancestors, |ancestors|)
    requires ClosedUpTo(contracts, after, i, allowInterfaces)
    ensures ClosedUpTo(contracts, after, i + 1, allowInterfaces)
  {
    var current := before[i];
    assert after[i] == current;
    var kept := KeptBases(contracts, contracts[current].bases, allowInterfaces);
    forall b | b in kept
      ensures HasName(contracts, after, contracts[b].name)
    {
      var m :| 0 <= m < |kept| && kept[m] == b;
      assert ancestors[m] == b;
    }
  }

  /**
   * `getParentsRecursive(contract, allowInterfaces)`: the kept direct bases in order;
   * then, for each entry in turn, including entries pushed meanwhile, the entries of
   * its own walk whose name is not yet present are pushed. A base that does not
   * resolve raises a TypeError. On success the entries are contracts ranked below
   * `id` that pass the filter, start with the kept direct bases, bring a new name from
   * there on, and hold, for every entry, the names of its kept direct bases.
   */
  method GetParentsRecursive(contracts: map<int, ContractInfo>, ghost rank: map<int, nat>, id: int,
                             allowInterfaces: bool) returns (r: Result<seq<int>, string>)
    requires id in contracts && Ranked(contracts, rank)
    ensures Resolved(contracts) ==> r.Success?
    ensures r.Success? ==> WalkResult(contracts, rank, id, allowInterfaces, r.value)
    ensures r.Success? ==> AllAncestors(contracts, id, r.value, allowInterfaces)
    decreases rank[id], 1
  {
    var info := contracts[id];
    if exists b :: b in info.bases && b !in contracts {
      return Failure("Cannot read properties of undefined");
    }
    var direct := KeptBases(contracts, info.bases, allowInterfaces);
    WalkStart(contracts, rank, id, allowInterfaces);
    var parents := direct;
    var i := 0;
    while i < |parents|
      invariant WalkInvariant(contracts, rank, id, allowInterfaces, direct, parents, i)
      decreases 2 * |AllNames(contracts) - NamesOf(contracts, parents)| + |parents| - i
    {
      var next := WalkRound(contracts, rank, id, allowInterfaces, direct, parents, i);
      if next.Failure? {
        return Failure(next.error);
      }
      parents := next.value;
      i := i + 1;
    }
    WalkDone(contracts, rank, id, allowInterfaces, direct, parents);
    r := Success(parents);
  }

  /**
   * One round of the walk: the ancestors of the `i`-th entry are walked and their new
   * names pushed; the failure of that walk is passed on.
   */
  method WalkRound(contracts: map<int, ContractInfo>, ghost rank: map<int, nat>, id: int, allowInterfaces: bool,
                   ghost direct: seq<int>, parents: seq<int>, i: nat) returns (r: Result<seq<int>, string>)
    requires id in contracts && Ranked(contracts, rank)
    requires WalkInvariant(contracts, rank, id, allowInterfaces, direct, parents, i) && i < |parents|
    ensures Resolved(contracts) ==> r.Success?
    ensures r.Success? ==> WalkInvariant(contracts, rank, id, allowInterfaces, direct, r.value, i + 1)
    ensures r.Success? ==> AllAncestors(contracts, id, r.value, allowInterfaces)
    ensures r.Success? ==> parents <= r.value && PushMeasure(contracts, r.value) == PushMeasure(contracts, parents)
    decreases rank[id], 0
  {
    var current := parents[i];
    var sub := GetParentsRecursive(contracts, rank, current, allowInterfaces);
    if sub.Failure? {
      return Failure(sub.error);
    }
    var after := PushNewAncestors(contracts, parents, sub.value);
    WalkStep(contracts, rank, id, allowInterfaces, direct, parents, i, sub.value, after);
    r := Success(after);
  }
}
