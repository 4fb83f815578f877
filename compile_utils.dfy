/**
 * The pure helpers around compiler input and output: remapping-string parsing,
 * compiler-error filtering, the check that every source section carries one of some
 * properties, and collecting source texts into a file map.
 */
module CompileUtils {
  import opened Wrappers
  import opened JsStrings
  import opened Json
  import Ast

  /** A remapping `context:prefix=target`, as the triple `[context, prefix, target]`. */
  datatype Remapping = Remapping(context: string, prefix: string, target: string)

  /** The characters a regular-expression `.` does not match. */
  predicate IsLineTerminator(c: char) {
    c == '\n' || c == '\r' || c == '\U{2028}' || c == '\U{2029}'
  }

  /**
   * The tail `([^=]*)=(.+)$` of the remapping pattern matched against all of `t`:
   * the text up to the first `=`, and the rest, which must be non-empty and free of
   * line terminators.
   */
  function MatchPrefixTarget(t: string): (r: Option<(string, string)>)
    ensures r.Some? ==> t == r.value.0 + "=" + r.value.1 && '=' !in r.value.0
    ensures r.Some? ==> r.value.1 != [] && forall c :: c in r.value.1 ==> !IsLineTerminator(c)
  {
    match Ast.PositionOf(t, '=')
    case None => None
    case Some(e) =>
      var target := t[e + 1..];
      if target != [] && forall c :: c in target ==> !IsLineTerminator(c) then
        assert t == t[..e] + "=" + target;
        Some((t[..e], target))
      else None
  }

  /** Every split of a text at an `=` before which there is none is the one the tail pattern finds. */
  lemma MatchPrefixTargetComplete(prefix: string, target: string)
    requires '=' !in prefix && target != [] && forall c :: c in target ==> !IsLineTerminator(c)
    ensures MatchPrefixTarget(prefix + "=" + target) == Some((prefix, target))
  {
    var t := prefix + "=" + target;
    assert t[|prefix|] == '=';
    assert t[..|prefix|] == prefix;
    assert t[|prefix| + 1..] == target;
  }

  /** The first position of `c` in `s` is the one before which `c` does not occur. */
  lemma PositionOfIs(s: string, c: char, k: nat)
    requires k < |s| && s[k] == c && c !in s[..k]
    ensures Ast.PositionOf(s, c) == Some(k)
  {
    assert c in s;
    var p := Ast.PositionOf(s, c).value;
    forall j | 0 <= j < k ensures s[j] != c {
      assert s[..k][j] == s[j];
    }
    forall j | 0 <= j < p ensures s[j] != c {
      assert s[..p][j] == s[j];
    }
  }

  /** The optional `context:` group taken: the context ends at the first `:`, and the rest must match the tail. */
  function MatchWithContext(entry: string): (r: Option<Remapping>)
    ensures r.Some? ==> ':' !in r.value.context && '=' !in r.value.prefix && r.value.target != []
    ensures r.Some? ==> entry == r.value.context + ":" + r.value.prefix + "=" + r.value.target
  {
    match Ast.PositionOf(entry, ':')
    case None => None
    case Some(c) =>
      match MatchPrefixTarget(entry[c + 1..])
      case None => None
      case Some(pt) =>
        JoinContext(entry, c, pt.0, pt.1);
        Some(Remapping(entry[..c], pt.0, pt.1))
  }

  /** An entry cut at a `:` whose remainder is `prefix=target` is the three parts joined. */
  lemma JoinContext(entry: string, c: nat, prefix: string, target: string)
    requires c < |entry| && entry[c] == ':' && entry[c + 1..] == prefix + "=" + target
    ensures entry == entry[..c] + ":" + prefix + "=" + target
  {
    assert entry == entry[..c] + [entry[c]] + entry[c + 1..];
  }

  /**
   * `entry.match(/^(([^:]*):)?([^=]*)=(.+)$/)`: the optional `context:` group is tried
   * first; if the rest then does not match, the group is skipped and the context read
   * as "".
   */
  function MatchRemapping(entry: string): (r: Option<Remapping>)
    ensures r.Some? ==> ':' !in r.value.context && '=' !in r.value.prefix && r.value.target != []
    ensures r.Some? ==> entry == r.value.context + ":" + r.value.prefix + "=" + r.value.target ||
                        (r.value.context == "" && entry == r.value.prefix + "=" + r.value.target)
  {
    var withContext := MatchWithContext(entry);
    if withContext.Some? then withContext
    else match MatchPrefixTarget(entry)
      case None => None
      case Some(pt) => Some(Remapping("", pt.0, pt.1))
  }

  /** A well-formed `context:prefix=target` entry is read back as its three parts. */
  lemma RemappingWithContext(context: string, prefix: string, target: string)
    requires ':' !in context && '=' !in prefix
    requires target != [] && forall c :: c in target ==> !IsLineTerminator(c)
    ensures MatchRemapping(context + ":" + prefix + "=" + target) == Some(Remapping(context, prefix, target))
  {
    WithContextMatches(context, prefix, target, context + ":" + prefix + "=" + target);
  }

  /** The context group of a well-formed `context:prefix=target` entry matches. */
  lemma WithContextMatches(context: string, prefix: string, target: string, entry: string)
    requires ':' !in context && '=' !in prefix
    requires target != [] && forall c :: c in target ==> !IsLineTerminator(c)
    requires entry == context + ":" + prefix + "=" + target
    ensures MatchWithContext(entry) == Some(Remapping(context, prefix, target))
  {
    assert entry[..|context|] == context;
    PositionOfIs(entry, ':', |context|);
    assert entry[|context| + 1..] == prefix + "=" + target;
    MatchPrefixTargetComplete(prefix, target);
  }

  /** An entry without any `:` gets the empty context. */
  lemma RemappingWithoutContext(prefix: string, target: string)
    requires ':' !in prefix && ':' !in target && '=' !in prefix
    requires target != [] && forall c :: c in target ==> !IsLineTerminator(c)
    ensures MatchRemapping(prefix + "=" + target) == Some(Remapping("", prefix, target))
  {
    MatchPrefixTargetComplete(prefix, target);
  }

  /**
   * When the text after the first `:` has no valid `prefix=target`, the whole entry
   * is read without a context: `a=b:c` maps prefix `a` to target `b:c`.
   */
  lemma ContextGroupSkipped()
    ensures MatchRemapping("a=b:c") == Some(Remapping("", "a", "b:c"))
  {
    var entry := "a=b:c";
    assert entry[..3] == "a=b";
    PositionOfIs(entry, ':', 3);
    assert entry[4..] == "c";
    assert MatchPrefixTarget("c") == None;
    assert MatchWithContext(entry) == None;
    MatchPrefixTargetComplete("a", "b:c");
    assert "a" + "=" + "b:c" == entry;
  }

  /** The error thrown for an entry that does not match. */
  function InvalidEntry(entry: string): string {
    "Invalid remapping entry \"" + entry + "\""
  }

  /**
   * `parsePathRemapping`: one triple per entry, in order; the first entry that does not
   * match stops the mapping with an error naming it.
   */
  function ParsePathRemapping(remapping: seq<string>): (r: Result<seq<Remapping>, string>)
    ensures r.Success? <==> forall i :: 0 <= i < |remapping| ==> MatchRemapping(remapping[i]).Some?
    ensures r.Success? ==> |r.value| == |remapping|
    ensures r.Success? ==> forall i :: 0 <= i < |remapping| ==> r.value[i] == MatchRemapping(remapping[i]).value
    ensures r.Failure? ==> exists i :: (0 <= i < |remapping| && MatchRemapping(remapping[i]).None? &&
                                        r.error == InvalidEntry(remapping[i]) &&
                                        forall j :: 0 <= j < i ==> MatchRemapping(remapping[j]).Some?)
  {
    if |remapping| == 0 then Success([])
    else match MatchRemapping(remapping[0])
      case None => Failure(InvalidEntry(remapping[0]))
      case Some(m) =>
        var rest := ParsePathRemapping(remapping[1..]);
        TailIndices(remapping, remapping[1..]);
        match rest
        case Failure(e) =>
          FirstFailureShift(remapping, remapping[1..], x => MatchRemapping(x).Some?, InvalidEntry, e);
          Failure(e)
        case Success(ms) => Success([m] + ms)
  }

  /** The entries of the tail are those of the list, one position later. */
  lemma TailIndices(remapping: seq<string>, tail: seq<string>)
    requires |remapping| > 0 && tail == remapping[1..]
    ensures |tail| == |remapping| - 1
    ensures forall i :: 1 <= i < |remapping| ==> remapping[i] == tail[i - 1]
  {
  }

  /** The first entry of the tail failing `ok` is the first of the list when the head passes. */
  lemma FirstFailureShift<T>(xs: seq<T>, tail: seq<T>, ok: T -> bool, err: T -> string, e: string)
    requires |xs| > 0 && tail == xs[1..] && ok(xs[0])
    requires exists i :: 0 <= i < |tail| && !ok(tail[i]) && e == err(tail[i]) &&
                         forall j :: 0 <= j < i ==> ok(tail[j])
    ensures exists i :: 0 <= i < |xs| && !ok(xs[i]) && e == err(xs[i]) &&
                        forall j :: 0 <= j < i ==> ok(xs[j])
  {
    var i :| 0 <= i < |tail| && !ok(tail[i]) && e == err(tail[i]) &&
             forall j :: 0 <= j < i ==> ok(tail[j]);
    assert xs[i + 1] == tail[i];
    forall j | 0 <= j < i + 1 ensures ok(xs[j]) {
      if j > 0 { assert xs[j] == tail[j - 1]; }
    }
  }

  /** The messages one entry of `errors` contributes; `entry` is not null. */
  function EntryErrors(entry: Value): seq<Value> {
    match entry
    case Object(_) =>
      if Get(entry, "severity") == Str("error") then [Get(entry, "formattedMessage")] else []
    case Str(s) => if Contains(s, "Warning") then [] else [entry]
    case _ => []
  }

  /**
   * An object entry contributes its formatted message exactly when its severity is
   * "error"; a string entry contributes itself exactly when it does not mention
   * "Warning"; anything else contributes nothing.
   */
  lemma EntryErrorsCases(entry: Value)
    ensures |EntryErrors(entry)| <= 1
    ensures entry.Object? ==> (EntryErrors(entry) != [] <==> Get(entry, "severity") == Str("error"))
    ensures entry.Object? && EntryErrors(entry) != [] ==> EntryErrors(entry) == [Get(entry, "formattedMessage")]
    ensures entry.Str? ==> (EntryErrors(entry) != [] <==> !Contains(entry.s, "Warning"))
    ensures entry.Str? && EntryErrors(entry) != [] ==> EntryErrors(entry) == [entry]
    ensures !entry.Object? && !entry.Str? ==> EntryErrors(entry) == []
  {
  }

  /** The errors of a prefix one entry longer. */
  lemma CollectErrorsSnoc(items: seq<Value>, i: nat)
    requires i < |items|
    ensures CollectErrors(items[..i + 1]) == CollectErrors(items[..i]) + EntryErrors(items[i])
  {
    assert items[..i + 1][..i] == items[..i];
  }

  /** The messages of a list of entries, in order. */
  function CollectErrors(entries: seq<Value>): seq<Value> {
    if |entries| == 0 then []
    else CollectErrors(entries[..|entries| - 1]) + EntryErrors(entries[|entries| - 1])
  }

  /** The errors of a list split in two are those of each part, in order. */
  lemma {:induction false} CollectErrorsAppend(a: seq<Value>, b: seq<Value>)
    ensures CollectErrors(a + b) == CollectErrors(a) + CollectErrors(b)
    decreases |b|
  {
    if |b| > 0 {
      var b' := b[..|b| - 1];
      assert (a + b)[..|a + b| - 1] == a + b';
      CollectErrorsAppend(a, b');
    } else {
      assert a + b == a;
    }
  }

  /** At most one message per entry, and each one comes from some entry. */
  lemma {:induction false} CollectErrorsFromEntries(entries: seq<Value>)
    ensures |CollectErrors(entries)| <= |entries|
    ensures forall x :: x in CollectErrors(entries) ==>
      exists i :: 0 <= i < |entries| && x in EntryErrors(entries[i])
    decreases |entries|
  {
    if |entries| > 0 {
      var init := entries[..|entries| - 1];
      CollectErrorsFromEntries(init);
      forall x | x in CollectErrors(entries)
        ensures exists i :: 0 <= i < |entries| && x in EntryErrors(entries[i])
      {
        if x in CollectErrors(init) {
          var i :| 0 <= i < |init| && x in EntryErrors(init[i]);
          assert entries[i] == init[i];
        } else {
          assert x in EntryErrors(entries[|entries| - 1]);
        }
      }
    }
  }

  /** The messages of the entries of an `errors` array, or the error a `null` entry raises. */
  function EntriesErrors(items: seq<Value>): Result<seq<Value>, string> {
    if exists i :: 0 <= i < |items| && items[i].Null? then
      Failure("Cannot read properties of null (reading 'severity')")
    else Success(CollectErrors(items))
  }

  /**
   * What `detectCompileErrors` returns: nothing unless `errors` is an array; reading
   * `errors` of `null` or `undefined` raises a TypeError.
   */
  function CompileErrors(data: Value): Result<seq<Value>, string> {
    if data.Null? then Failure("Cannot read properties of null (reading 'errors')")
    else if data.Undefined? then Failure("Cannot read properties of undefined (reading 'errors')")
    else
      var errors := Get(data, "errors");
      if errors.Array? then EntriesErrors(errors.items) else Success([])
  }

  /** The loop of `detectCompileErrors` over the entries of `errors`. */
  method ScanErrorEntries(items: seq<Value>) returns (r: Result<seq<Value>, string>)
    ensures r == EntriesErrors(items)
  {
    var found: seq<Value> := [];
    var i := 0;
    while i < |items| && !items[i].Null?
      invariant 0 <= i <= |items|
      invariant forall j :: 0 <= j < i ==> !items[j].Null?
      invariant found == CollectErrors(items[..i])
    {
      CollectErrorsSnoc(items, i);
      found := found + EntryErrors(items[i]);
      i := i + 1;
    }
    ScanOutcome(items, i, found);
    if i < |items| {
      r := Failure("Cannot read properties of null (reading 'severity')");
    } else {
      r := Success(found);
    }
  }

  /** Where the scan stops decides the outcome: at a `null` entry, or past the end with every message. */
  lemma ScanOutcome(items: seq<Value>, i: nat, found: seq<Value>)
    requires i <= |items| && forall j :: 0 <= j < i ==> !items[j].Null?
    requires found == CollectErrors(items[..i]) && (i < |items| ==> items[i].Null?)
    ensures i < |items| ==> EntriesErrors(items) == Failure("Cannot read properties of null (reading 'severity')")
    ensures i == |items| ==> EntriesErrors(items) == Success(found)
  {
    if i == |items| {
      assert items[..i] == items;
    }
  }

  /**
   * `detectCompileErrors`: objects of severity "error" contribute their formatted
   * message, strings without "Warning" themselves, in input order; a missing or
   * non-array `errors` gives nothing; `null` or `undefined` data raises a TypeError.
   */
  method DetectCompileErrors(data: Value) returns (r: Result<seq<Value>, string>)
    ensures r == CompileErrors(data)
    ensures r.Failure? <==>
      || data.Null? || data.Undefined?
      || (Get(data, "errors").Array? && exists i :: 0 <= i < |Get(data, "errors").items| && Get(data, "errors").items[i].Null?)
  {
    if data.Null? {
      return Failure("Cannot read properties of null (reading 'errors')");
    } else if data.Undefined? {
      return Failure("Cannot read properties of undefined (reading 'errors')");
    }
    var errors := Get(data, "errors");
    if errors.Array? {
      r := ScanErrorEntries(errors.items);
    } else {
      r := Success([]);
    }
  }

  /** `property in section` for every section. */
  predicate InEverySection(sections: seq<Value>, property: string) {
    forall i :: 0 <= i < |sections| ==> HasProperty(sections[i], property)
  }

  /**
   * `consistentlyContainsOneOf`: true exactly when some listed property is present in
   * every section; the properties are tried in order and the first that qualifies ends
   * the search.
   */
  method ConsistentlyContainsOneOf(sources: seq<(string, Value)>, properties: seq<string>) returns (r: bool)
    requires forall i :: 0 <= i < |sources| ==> IsObjectLike(sources[i].1)
    ensures r <==> exists k :: (0 <= k < |properties| &&
                                InEverySection(seq(|sources|, i requires 0 <= i < |sources| => sources[i].1), properties[k]))
  {
    var sections := seq(|sources|, i requires 0 <= i < |sources| => sources[i].1);
    var k := 0;
    while k < |properties|
      invariant 0 <= k <= |properties|
      invariant forall j :: 0 <= j < k ==> !InEverySection(sections, properties[j])
    {
      if InEverySection(sections, properties[k]) {
        return true;
      }
      k := k + 1;
    }
    return false;
  }

  /** `section.source` when `section && typeof section.source === "string"` holds. */
  function SourceText(section: Value): (r: Option<string>)
    ensures r.Some? <==> Truthy(section) && Get(section, "source").Str?
    ensures r.Some? ==> r.value == Get(section, "source").s
  {
    if Truthy(section) && Get(section, "source").Str? then Some(Get(section, "source").s) else None
  }

  /** The file map after recording, in order, every section of `sources` that has source text. */
  function Filled(files: map<string, string>, sources: seq<(string, Value)>): map<string, string> {
    if |sources| == 0 then files
    else
      var before := Filled(files, sources[..|sources| - 1]);
      var (name, section) := sources[|sources| - 1];
      if SourceText(section).Some? then before[name := SourceText(section).value] else before
  }

  /**
   * With distinct file names, every section with source text is recorded under its
   * name, and every other name keeps what the map held, or stays absent.
   */
  lemma FilledRecordsSources(files: map<string, string>, sources: seq<(string, Value)>)
    requires forall i, j :: 0 <= i < j < |sources| ==> sources[i].0 != sources[j].0
    ensures forall i :: 0 <= i < |sources| && SourceText(sources[i].1).Some? ==>
      sources[i].0 in Filled(files, sources) &&
      Filled(files, sources)[sources[i].0] == SourceText(sources[i].1).value
    ensures forall name :: (forall i :: 0 <= i < |sources| ==> sources[i].0 != name || SourceText(sources[i].1).None?) ==>
      (name in Filled(files, sources) <==> name in files) &&
      (name in files ==> Filled(files, sources)[name] == files[name])
  {
    forall i | 0 <= i < |sources| && SourceText(sources[i].1).Some?
      ensures sources[i].0 in Filled(files, sources) &&
              Filled(files, sources)[sources[i].0] == SourceText(sources[i].1).value
    {
      FilledRecordsAt(files, sources, i);
    }
    forall name | forall i :: 0 <= i < |sources| ==> sources[i].0 != name || SourceText(sources[i].1).None?
      ensures (name in Filled(files, sources) <==> name in files) &&
              (name in files ==> Filled(files, sources)[name] == files[name])
    {
      FilledKeepsAt(files, sources, name);
    }
  }

  /** A section with source text is recorded under its name when no later section has that name. */
  lemma {:induction false} FilledRecordsAt(files: map<string, string>, sources: seq<(string, Value)>, i: nat)
    requires i < |sources| && SourceText(sources[i].1).Some?
    requires forall j :: i < j < |sources| ==> sources[j].0 != sources[i].0
    ensures sources[i].0 in Filled(files, sources)
    ensures Filled(files, sources)[sources[i].0] == SourceText(sources[i].1).value
    decreases |sources|
  {
    if i < |sources| - 1 {
      var init := sources[..|sources| - 1];
      assert init[i] == sources[i];
      forall j | i < j < |init| ensures init[j].0 != init[i].0 {
        assert init[j] == sources[j];
      }
      FilledRecordsAt(files, init, i);
    }
  }

  /** A name no section with source text carries keeps what the map held. */
  lemma {:induction false} FilledKeepsAt(files: map<string, string>, sources: seq<(string, Value)>, name: string)
    requires forall i :: 0 <= i < |sources| ==> sources[i].0 != name || SourceText(sources[i].1).None?
    ensures name in Filled(files, sources) <==> name in files
    ensures name in files ==> Filled(files, sources)[name] == files[name]
    decreases |sources|
  {
    if |sources| > 0 {
      var init := sources[..|sources| - 1];
      forall j | 0 <= j < |init| ensures init[j].0 != name || SourceText(init[j].1).None? {
        assert init[j] == sources[j];
      }
      FilledKeepsAt(files, init, name);
    }
  }

  /**
   * `fillFilesFromSources`: records `section.source` under the file name for every
   * section that is truthy and has a string `source`, in entry order; the caller's map
   * is given and returned as a value.
   */
  method FillFilesFromSources(files: map<string, string>, sources: seq<(string, Value)>)
      returns (r: map<string, string>)
    ensures r == Filled(files, sources)
  {
    r := files;
    var i := 0;
    while i < |sources|
      invariant 0 <= i <= |sources|
      invariant r == Filled(files, sources[..i])
    {
      var (fileName, section) := sources[i];
      assert sources[..i + 1][..i] == sources[..i];
      var text := SourceText(section);
      if text.Some? {
        r := r[fileName := text.value];
      }
      i := i + 1;
    }
    assert sources[..i] == sources;
  }
}
