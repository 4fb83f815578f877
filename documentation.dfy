/**
 * Documentation comments of a node: stripping the comment markers from a doc block,
 * and the two documentation slots of a node with children. A slot holds either a
 * plain string (kept in a string field of the owner) or a `StructuredDocumentation`
 * child; the preceding documentation is found front to back among the children at
 * or before the owner's offset, the dangling documentation back to front among those
 * after it.
 */
module Documentation {
  import opened Wrappers
  import opened JsStrings
  import opened Ast

  /** The value of a `documentation` slot: `string | StructuredDocumentation | undefined`. */
  datatype DocValue = NoDoc | DocText(text: string) | DocNode(doc: Node)

  /** A string-or-undefined value as the owner stores it in its string field. */
  function AsDocString(v: DocValue): Option<string> {
    if v.DocText? then Some(v.text) else None
  }

  /** `pickNodes` of a documentation value: the structured node alone, or nothing for a string. */
  function DocNodes(v: DocValue): (r: seq<Node>)
    ensures v.DocNode? ==> r == [v.doc]
    ensures !v.DocNode? ==> r == []
  {
    if v.DocNode? then [v.doc] else []
  }

  /** The value is the structured documentation node `c`. */
  predicate IsDoc(v: DocValue, c: Node) {
    v.DocNode? && v.doc == c
  }

  /** A documentation value is what the TypeScript types allow: a node is structured documentation. */
  predicate WellTyped(v: DocValue) {
    v.DocNode? ==> v.doc.nodeType == StructuredDocumentationType
  }

  // ---------------------------------------------------------------------------
  // Doc-block text

  /** The markers stripped from each line: `///`-style blocks and `/** */`-style blocks. */
  function Replacers(docBlock: string): seq<string> {
    if StartsWith(docBlock, "///") then ["/// ", "///"] else ["/**", "*/", "* ", "*"]
  }

  /** `line.replace(r, "")` for each `r` of `reps`, in order. */
  function RemoveEach(line: string, reps: seq<string>): string
    decreases |reps|
  {
    if |reps| == 0 then line
    else RemoveEach(RemoveFirst(line, reps[0]), reps[1..])
  }

  /** One line after left-trimming and stripping the markers. */
  function CleanLine(line: string, reps: seq<string>): string {
    RemoveEach(TrimStart(line), reps)
  }

  function CleanLines(lines: seq<string>, reps: seq<string>): (r: seq<string>)
    ensures |r| == |lines|
    ensures forall k :: 0 <= k < |lines| ==> r[k] == CleanLine(lines[k], reps)
  {
    seq(|lines|, k requires 0 <= k < |lines| => CleanLine(lines[k], reps))
  }

  /** The text of a doc block: the cleaned lines joined by newlines, then trimmed. */
  function DocumentationText(docBlock: string): string {
    Trim(Join(CleanLines(Split(docBlock, '\n'), Replacers(docBlock)), "\n"))
  }

  /** `extractDocumentationText`: the text has no whitespace at either end. */
  method ExtractDocumentationText(docBlock: string) returns (r: string)
    ensures r == DocumentationText(docBlock)
    ensures r == [] || (!IsWhitespace(r[0]) && !IsWhitespace(r[|r| - 1]))
  {
    var result: seq<string> := [];
    var replacers := Replacers(docBlock);
    var lines := Split(docBlock, '\n');
    var i := 0;
    while i < |lines|
      invariant 0 <= i <= |lines|
      invariant |result| == i
      invariant forall k :: 0 <= k < i ==> result[k] == CleanLine(lines[k], replacers)
    {
      var line := TrimStart(lines[i]);
      var j := 0;
      while j < |replacers|
        invariant 0 <= j <= |replacers|
        invariant RemoveEach(line, replacers[j..]) == CleanLine(lines[i], replacers)
      {
        assert replacers[j..][1..] == replacers[j + 1..];
        line := RemoveFirst(line, replacers[j]);
        j := j + 1;
      }
      result := result + [line];
      i := i + 1;
    }
    assert result == CleanLines(lines, replacers);
    r := Trim(Join(result, "\n"));
  }

  /** A string that starts with something other than whitespace is left alone by `trimStart`. */
  lemma TrimStartUnchanged(s: string)
    requires |s| > 0 && !IsWhitespace(s[0])
    ensures TrimStart(s) == s
  {
  }

  /** `s.replace(pat, "")` where `pat` first occurs right after `a`. */
  lemma RemoveFirstAfter(a: string, pat: string, rest: string)
    requires |pat| > 0 && pat[0] !in a
    ensures RemoveFirst(a + pat + rest, pat) == a + rest
  {
    var s := a + pat + rest;
    assert s[|a|..|a| + |pat|] == pat;
    assert OccursAt(s, pat, |a|);
    forall j | 0 <= j < |a|
      ensures !OccursAt(s, pat, j)
    {
      assert s[j] == a[j];
    }
    assert s[..|a|] + s[|a| + |pat|..] == a + rest;
  }

  /** `s.replace(pat, "")` leaves `s` alone when the first character of `pat` is not in it. */
  lemma RemoveFirstMissing(s: string, pat: string)
    requires |pat| > 0 && pat[0] !in s
    ensures RemoveFirst(s, pat) == s
  {
    forall j | 0 <= j && j + |pat| <= |s|
      ensures !OccursAt(s, pat, j)
    {
      assert s[j..j + |pat|][0] == s[j];
    }
  }

  /** A one-line `///` comment yields its text. */
  lemma SingleLineComment(t: string)
    requires |t| > 0 && !IsWhitespace(t[0]) && !IsWhitespace(t[|t| - 1])
    requires '\n' !in t && !Contains(t, "///")
    ensures DocumentationText("/// " + t) == t
  {
    var s := "/// " + t;
    var reps := ["/// ", "///"];
    assert StartsWith(s, "///");
    SplitNoSeparator(s, '\n');
    TrimStartUnchanged(s);
    RemoveFirstPrefix("/// ", t);
    assert reps[1..][1..] == [];
    assert CleanLine(s, reps) == t;
    assert CleanLines([s], ["/// ", "///"]) == [t];
    TrimUnchanged(t);
  }

  /** A one-line `/** */` comment without stars in its text yields that text. */
  lemma BlockComment(t: string)
    requires |t| > 0 && !IsWhitespace(t[0]) && !IsWhitespace(t[|t| - 1])
    requires '\n' !in t && '*' !in t
    ensures DocumentationText("/** " + t + " */") == t
  {
    var s := "/** " + t + " */";
    var reps := ["/**", "*/", "* ", "*"];
    assert s[2] == '*';
    assert Replacers(s) == reps;
    SplitNoSeparator(s, '\n');
    TrimStartUnchanged(s);
    assert s == "/**" + (" " + t + " */");
    RemoveFirstPrefix("/**", " " + t + " */");
    var u := " " + t + " ";
    assert " " + t + " */" == u + "*/" + "";
    RemoveFirstAfter(u, "*/", "");
    assert u + "" == u;
    RemoveFirstMissing(u, "* ");
    RemoveFirstMissing(u, "*");
    assert reps[1..] == ["*/", "* ", "*"] && reps[1..][1..] == ["* ", "*"];
    assert reps[1..][1..][1..] == ["*"] && reps[1..][1..][1..][1..] == [];
    assert RemoveEach(s, reps) == u;
    assert CleanLines([s], reps) == [u];
    TrimPadded(t);
  }

  /** One space on either side of a trimmed string is undone by `trim`. */
  lemma TrimPadded(t: string)
    requires |t| > 0 && !IsWhitespace(t[0]) && !IsWhitespace(t[|t| - 1])
    ensures Trim(" " + t + " ") == t
  {
    var s := " " + t + " ";
    assert s[1..] == t + " ";
    assert TrimStart(s) == TrimStart(t + " ");
    assert (t + " ")[0] == t[0];
    TrimStartUnchanged(t + " ");
    assert (t + " ")[..|t|] == t;
    assert TrimEnd(t + " ") == TrimEnd(t);
  }

  // ---------------------------------------------------------------------------
  // Looking a documentation slot up

  /** A structured-documentation child at or before the owner's offset. */
  predicate Precedes(c: Node, own: int) {
    c.nodeType == StructuredDocumentationType && c.offset <= own
  }

  /** A structured-documentation child after the owner's offset. */
  predicate Dangles(c: Node, own: int) {
    c.nodeType == StructuredDocumentationType && c.offset > own
  }

  /** The first child that is preceding documentation. */
  function FirstPreceding(cs: seq<Node>, own: int): (r: Option<nat>)
    ensures r.Some? ==> r.value < |cs| && Precedes(cs[r.value], own)
    ensures r.Some? ==> forall j :: 0 <= j < r.value ==> !Precedes(cs[j], own)
    ensures r.None? <==> forall j :: 0 <= j < |cs| ==> !Precedes(cs[j], own)
  {
    if |cs| == 0 then None
    else if Precedes(cs[0], own) then Some(0)
    else match FirstPreceding(cs[1..], own)
      case None => None
      case Some(i) => Some(i + 1)
  }

  /** The last child that is dangling documentation. */
  function LastDangling(cs: seq<Node>, own: int): (r: Option<nat>)
    ensures r.Some? ==> r.value < |cs| && Dangles(cs[r.value], own)
    ensures r.Some? ==> forall j :: r.value < j < |cs| ==> !Dangles(cs[j], own)
    ensures r.None? <==> forall j :: 0 <= j < |cs| ==> !Dangles(cs[j], own)
  {
    if |cs| == 0 then None
    else if Dangles(cs[|cs| - 1], own) then Some(|cs| - 1)
    else LastDangling(cs[..|cs| - 1], own)
  }

  /** What `getDocumentation` returns for an owner whose string field holds `docString`. */
  function PrecedingDocumentation(docString: Option<string>, owner: Node): (r: DocValue)
    reads owner
    ensures WellTyped(r)
    ensures r.DocNode? ==> docString.None? && r.doc in owner.ownChildren
  {
    if docString.Some? then DocText(docString.value)
    else match FirstPreceding(owner.ownChildren, owner.offset)
      case None => NoDoc
      case Some(i) => DocNode(owner.ownChildren[i])
  }

  /** What `getDanglingDocumentation` returns for an owner whose string field holds `docString`. */
  function DanglingDocumentation(docString: Option<string>, owner: Node): (r: DocValue)
    reads owner
    ensures WellTyped(r)
    ensures r.DocNode? ==> docString.None? && r.doc in owner.ownChildren
  {
    if docString.Some? then DocText(docString.value)
    else match LastDangling(owner.ownChildren, owner.offset)
      case None => NoDoc
      case Some(i) => DocNode(owner.ownChildren[i])
  }

  /**
   * `getDocumentation`: the string field when set; otherwise the first structured
   * documentation child, front to back, not after the owner's offset.
   */
  method GetDocumentation(owner: Node, docString: Option<string>) returns (d: DocValue)
    ensures d == PrecedingDocumentation(docString, owner)
  {
    if docString.Some? {
      return DocText(docString.value);
    }
    var children := owner.ownChildren;
    var c := 0;
    while c < |children|
      invariant 0 <= c <= |children|
      invariant forall j :: 0 <= j < c ==> !Precedes(children[j], owner.offset)
    {
      var child := children[c];
      if child.nodeType == StructuredDocumentationType {
        if child.offset <= owner.offset {
          return DocNode(child);
        }
      }
      c := c + 1;
    }
    return NoDoc;
  }

  /**
   * `getDanglingDocumentation`: the string field when set; otherwise the last
   * structured documentation child, back to front, after the owner's offset.
   */
  method GetDanglingDocumentation(owner: Node, danglingDocString: Option<string>) returns (d: DocValue)
    ensures d == DanglingDocumentation(danglingDocString, owner)
  {
    if danglingDocString.Some? {
      return DocText(danglingDocString.value);
    }
    var children := owner.ownChildren;
    var c := |children| - 1;
    while c >= 0
      invariant -1 <= c < |children|
      invariant forall j :: c < j < |children| ==> !Dangles(children[j], owner.offset)
    {
      var child := children[c];
      if child.nodeType == StructuredDocumentationType {
        if child.offset > owner.offset {
          return DocNode(child);
        }
      }
      c := c - 1;
    }
    return NoDoc;
  }

  // ---------------------------------------------------------------------------
  // Properties of the lookups under the setters' edits

  /** The first preceding child is also the first occurrence of that node. */
  lemma FirstPrecedingIsPositionOf(cs: seq<Node>, own: int)
    requires FirstPreceding(cs, own).Some?
    ensures PositionOf(cs, cs[FirstPreceding(cs, own).value]) == FirstPreceding(cs, own)
  {
    var i := FirstPreceding(cs, own).value;
    assert cs[i] in cs;
    var k := PositionOf(cs, cs[i]).value;
    assert Precedes(cs[k], own);
    assert forall m :: 0 <= m < k ==> cs[..k][m] == cs[m];
  }

  /** Preceding documentation put in front of a list without any is found. */
  lemma FirstPrecedingInserted(cs: seq<Node>, v: Node, own: int)
    requires Precedes(v, own)
    ensures FirstPreceding([v] + cs, own) == Some(0)
  {
  }

  /** Preceding documentation that overwrites the first one is found in its place. */
  lemma {:induction false} FirstPrecedingReplaced(cs: seq<Node>, v: Node, own: int)
    requires FirstPreceding(cs, own).Some? && Precedes(v, own)
    ensures FirstPreceding(cs[FirstPreceding(cs, own).value := v], own) == FirstPreceding(cs, own)
  {
    var i := FirstPreceding(cs, own).value;
    var cs' := cs[i := v];
    assert Precedes(cs'[i], own);
    var m := FirstPreceding(cs', own).value;
    assert m <= i;
    assert cs'[m] == cs[m] || m == i;
  }

  /** Dangling documentation appended after the children is found. */
  lemma LastDanglingAppended(cs: seq<Node>, v: Node, own: int)
    requires Dangles(v, own)
    ensures LastDangling(cs + [v], own) == Some(|cs|)
  {
  }

  /** Dangling documentation that overwrites the last one is found in its place. */
  lemma {:induction false} LastDanglingReplaced(cs: seq<Node>, i: nat, v: Node, own: int)
    requires LastDangling(cs, own) == Some(i) && Dangles(v, own)
    ensures LastDangling(cs[i := v], own) == Some(i)
  {
    var cs' := cs[i := v];
    assert Dangles(cs'[i], own);
    var m := LastDangling(cs', own).value;
    assert m >= i;
    assert cs'[m] == cs[m] || m == i;
  }

  /** Overwriting a child before the last dangling one leaves that one found. */
  lemma LastDanglingKept(cs: seq<Node>, i: nat, p: nat, v: Node, own: int)
    requires LastDangling(cs, own) == Some(i) && p < i
    ensures LastDangling(cs[p := v], own) == Some(i)
  {
    var cs' := cs[p := v];
    assert cs'[i] == cs[i];
    var m := LastDangling(cs', own).value;
    assert forall j :: i < j < |cs'| ==> cs'[j] == cs[j];
  }

  // ---------------------------------------------------------------------------
  // Setting a documentation slot

  /**
   * `setDocumentation`: returns the owner's new string field. A structured node
   * clears the string, replaces the old structured child in place when it differs,
   * leaves it when it is the same node, and is inserted first when there was none.
   * A string or nothing removes the old structured child and is stored as the string.
   */
  method SetDocumentation(owner: Node, docString: Option<string>, value: DocValue)
    returns (newDocString: Option<string>)
    requires WellTyped(value)
    modifies owner`ownChildren
    modifies (set c | c in owner.ownChildren || (value.DocNode? && c == value.doc))`parent
    ensures newDocString == AsDocString(value)
    ensures value.DocNode? ==> value.doc in owner.ownChildren
    ensures var previous := old(PrecedingDocumentation(docString, owner));
      && (value.DocNode? && previous.DocNode? && value.doc != previous.doc ==>
            owner.ownChildren == old(owner.ownChildren)[PositionOf(old(owner.ownChildren), previous.doc).value := value.doc]
            && value.doc.parent == owner && previous.doc.parent == null)
      && (value.DocNode? && previous == value ==>
            owner.ownChildren == old(owner.ownChildren) && unchanged(value.doc`parent))
      && (value.DocNode? && !previous.DocNode? ==>
            owner.ownChildren == [value.doc] + old(owner.ownChildren) && value.doc.parent == owner)
      && (!value.DocNode? && previous.DocNode? ==>
            owner.ownChildren == RemoveAt(old(owner.ownChildren), PositionOf(old(owner.ownChildren), previous.doc).value)
            && previous.doc.parent == null)
      && (!value.DocNode? && !previous.DocNode? ==> owner.ownChildren == old(owner.ownChildren))
      && (forall c :: c in old(owner.ownChildren) && !IsDoc(value, c) && !IsDoc(previous, c) ==>
            c.parent == old(c.parent))
    ensures value.DocText? || (value.DocNode? && Precedes(value.doc, owner.offset)) ==>
      PrecedingDocumentation(newDocString, owner) == value
  {
    var previous := GetDocumentation(owner, docString);
    ghost var cs := owner.ownChildren;
    if value.DocNode? {
      newDocString := None;
      if previous.DocNode? {
        if value.doc != previous.doc {
          var _ := owner.ReplaceChild(value.doc, previous.doc);
          assert owner.ownChildren[PositionOf(cs, previous.doc).value] == value.doc;
          FirstPrecedingIsPositionOf(cs, owner.offset);
          if Precedes(value.doc, owner.offset) {
            FirstPrecedingReplaced(cs, value.doc, owner.offset);
          }
        }
      } else {
        var _ := owner.InsertAtBeginning(value.doc);
      }
    } else {
      if previous.DocNode? {
        var _ := owner.RemoveChild(previous.doc);
      }
      newDocString := AsDocString(value);
    }
  }

  /**
   * `setDanglingDocumentation`: as `setDocumentation`, except that a structured node
   * where there was none is appended as the last child.
   */
  method SetDanglingDocumentation(owner: Node, danglingDocString: Option<string>, value: DocValue)
    returns (newDocString: Option<string>)
    requires WellTyped(value)
    modifies owner`ownChildren
    modifies (set c | c in owner.ownChildren || (value.DocNode? && c == value.doc))`parent
    ensures newDocString == AsDocString(value)
    ensures value.DocNode? ==> value.doc in owner.ownChildren
    ensures var previous := old(DanglingDocumentation(danglingDocString, owner));
      && (value.DocNode? && previous.DocNode? && value.doc != previous.doc ==>
            owner.ownChildren == old(owner.ownChildren)[PositionOf(old(owner.ownChildren), previous.doc).value := value.doc]
            && value.doc.parent == owner && previous.doc.parent == null)
      && (value.DocNode? && previous == value ==>
            owner.ownChildren == old(owner.ownChildren) && unchanged(value.doc`parent))
      && (value.DocNode? && !previous.DocNode? ==>
            owner.ownChildren == old(owner.ownChildren) + [value.doc] && value.doc.parent == owner)
      && (!value.DocNode? && previous.DocNode? ==>
            owner.ownChildren == RemoveAt(old(owner.ownChildren), PositionOf(old(owner.ownChildren), previous.doc).value)
            && previous.doc.parent == null)
      && (!value.DocNode? && !previous.DocNode? ==> owner.ownChildren == old(owner.ownChildren))
      && (forall c :: c in old(owner.ownChildren) && !IsDoc(value, c) && !IsDoc(previous, c) ==>
            c.parent == old(c.parent))
    ensures value.DocText? ==> DanglingDocumentation(newDocString, owner) == value
    ensures var previous := old(DanglingDocumentation(danglingDocString, owner));
      var found := old(LastDangling(owner.ownChildren, owner.offset));
      && (value.DocNode? && Dangles(value.doc, owner.offset) && !previous.DocNode? ==>
            DanglingDocumentation(newDocString, owner) == value)
      && (value.DocNode? && previous == value ==> DanglingDocumentation(newDocString, owner) == value)
      && (value.DocNode? && Dangles(value.doc, owner.offset) && previous.DocNode? &&
          PositionOf(old(owner.ownChildren), previous.doc) == found ==>
            DanglingDocumentation(newDocString, owner) == value)
      && (value.DocNode? && previous.DocNode? && PositionOf(old(owner.ownChildren), previous.doc) != found ==>
            DanglingDocumentation(newDocString, owner) == previous)
  {
    var previous := GetDanglingDocumentation(owner, danglingDocString);
    ghost var cs := owner.ownChildren;
    if value.DocNode? {
      newDocString := None;
      if previous.DocNode? {
        if value.doc != previous.doc {
          var i := LastDangling(cs, owner.offset).value;
          var p := PositionOf(cs, previous.doc).value;
          var _ := owner.ReplaceChild(value.doc, previous.doc);
          assert owner.ownChildren[p] == value.doc;
          if p == i {
            if Dangles(value.doc, owner.offset) {
              LastDanglingReplaced(cs, i, value.doc, owner.offset);
            }
          } else {
            assert cs[i] in cs;
            assert p < i;
            LastDanglingKept(cs, i, p, value.doc, owner.offset);
          }
        }
      } else {
        var _ := owner.AppendChild(value.doc);
        if Dangles(value.doc, owner.offset) {
          LastDanglingAppended(cs, value.doc, owner.offset);
        }
      }
    } else {
      if previous.DocNode? {
        var _ := owner.RemoveChild(previous.doc);
      }
      newDocString := AsDocString(value);
    }
  }
}
