/**
 * The command-line front end (class CliAuth in src/cli-aut.js): option
 * validation of `verify`, `paste` and `copy`, the grant list that `verify`
 * builds and sorts, the header decision of `pasteAskBlocks` and the
 * question list of `setup`. Requests, prompts and file access belong to an
 * external package and appear only as the values handed to it.
 */
module CliAuth {
  import opened Wrappers
  import opened JsValues
  import opened JsStrings
  import opened Credentials

  const ConfigMissing: string := "Invalid configuration file in parameters"
  const SectionMissing: string := "Invalid section in configuration parameters"
  const FileMissing: string := "Invalid File parameters"
  const FromToMissing: string := "Invalid parameters <from> and/or <to> for copy command"

  // ---------------------------------------------------------------------
  // Option validation: the message each command throws before any work.
  // ---------------------------------------------------------------------

  /** `verify` checks the configuration path first, then the section. */
  function VerifyCheck(options: map<string, Value>): (err: Option<string>)
    ensures err == None <==> !Missing(options, "config") && !Missing(options, "section")
    ensures Missing(options, "config") ==> err == Some(ConfigMissing)
    ensures !Missing(options, "config") && Missing(options, "section") ==> err == Some(SectionMissing)
  {
    if Missing(options, "config") then Some(ConfigMissing)
    else if Missing(options, "section") then Some(SectionMissing)
    else None
  }

  /** `paste` checks only the configuration path. */
  function PasteCheck(options: map<string, Value>): (err: Option<string>)
    ensures err == None <==> !Missing(options, "config")
    ensures err != None ==> err == Some(FileMissing)
  {
    if Missing(options, "config") then Some(FileMissing) else None
  }

  /** `copy` checks that both section names are given, and nothing else. */
  function CopyCheck(options: map<string, Value>): (err: Option<string>)
    ensures err == None <==> !Missing(options, "from") && !Missing(options, "to")
    ensures err != None ==> err == Some(FromToMissing)
  {
    if Missing(options, "from") || Missing(options, "to") then Some(FromToMissing) else None
  }

  lemma VerifyCheckReadsOnlyConfigAndSection(options: map<string, Value>, key: string, v: Value)
    requires key != "config" && key != "section"
    ensures VerifyCheck(options[key := v]) == VerifyCheck(options)
  {
    assert Get(options[key := v], "config") == Get(options, "config");
    assert Get(options[key := v], "section") == Get(options, "section");
  }

  lemma PasteCheckReadsOnlyConfig(options: map<string, Value>, key: string, v: Value)
    requires key != "config"
    ensures PasteCheck(options[key := v]) == PasteCheck(options)
  {
    assert Get(options[key := v], "config") == Get(options, "config");
  }

  lemma CopyCheckReadsOnlyFromAndTo(options: map<string, Value>, key: string, v: Value)
    requires key != "from" && key != "to"
    ensures CopyCheck(options[key := v]) == CopyCheck(options)
  {
    assert Get(options[key := v], "from") == Get(options, "from");
    assert Get(options[key := v], "to") == Get(options, "to");
  }

  // ---------------------------------------------------------------------
  // Grants shown by `verify`.
  // ---------------------------------------------------------------------

  /** The display line of one scope: its sixth and eighth '/'-separated items. */
  function GrantLine(scope: string): (line: string)
    ensures var items := Split(scope, '/');
      (|items| > 7 ==> line == "    " + items[5] + " : " + items[7]) &&
      (5 < |items| <= 7 ==> line == "    " + items[5] + " : undefined") &&
      (|items| <= 5 ==> line == "    undefined : undefined")
  {
    var items := Split(scope, '/');
    "    " + Item(items, 5) + " : " + Item(items, 7)
  }

  /** The grant list before sorting: one line per ' '-separated piece, empty pieces included. */
  function GrantLines(scope: string): (lines: seq<string>)
    ensures |lines| == Count(scope, ' ') + 1
  {
    var pieces := Split(scope, ' ');
    SplitLength(scope, ' ');
    seq(|pieces|, i requires 0 <= i < |pieces| => GrantLine(pieces[i]))
  }

  /** Pushes one line per piece of the scope string, in scope order. */
  method BuildGrants(scope: string) returns (grants: seq<string>)
    ensures grants == GrantLines(scope)
  {
    var pieces := Split(scope, ' ');
    ghost var lines := GrantLines(scope);
    grants := [];
    for i := 0 to |pieces|
      invariant |lines| == |pieces|
      invariant grants == lines[..i]
    {
      assert lines[..i + 1] == lines[..i] + [GrantLine(pieces[i])];
      grants := grants + [GrantLine(pieces[i])];
    }
    assert lines[..|pieces|] == lines;
  }

  /** `grants.sort()`: in place, ascending by UTF-16 code units. */
  method SortGrants(a: array<string>)
    modifies a
    ensures SortedByCodeUnits(a[..])
    ensures multiset(a[..]) == multiset(old(a[..]))
  {
    if a.Length == 0 {
      return;
    }
    var i := 1;
    while i < a.Length
      invariant 1 <= i <= a.Length
      invariant forall p, q :: 0 <= p < q < i ==> CodeUnitLe(a[p], a[q])
      invariant multiset(a[..]) == multiset(old(a[..]))
    {
      SinkInto(a, i);
      i := i + 1;
    }
  }

  /** One insertion step: moves a[i] left into the sorted prefix a[..i]. */
  method SinkInto(a: array<string>, i: nat)
    requires i < a.Length
    requires forall p, q :: 0 <= p < q < i ==> CodeUnitLe(a[p], a[q])
    modifies a
    ensures forall p, q :: 0 <= p < q <= i ==> CodeUnitLe(a[p], a[q])
    ensures multiset(a[..]) == multiset(old(a[..]))
  {
    var j := i;
    while j > 0 && !CodeUnitLe(a[j - 1], a[j])
      invariant 0 <= j <= i
      invariant SortedExcept(a[..], i, j) && BelowRest(a[..], i, j)
      invariant multiset(a[..]) == multiset(old(a[..]))
    {
      SwapStep(a[..], i, j);
      a[j - 1], a[j] := a[j], a[j - 1];
      j := j - 1;
    }
    SinkDone(a[..], i, j);
  }

  /** Elements 0..i are in order, leaving out position j, the one being moved. */
  predicate SortedExcept(s: seq<string>, i: nat, j: nat)
    requires i < |s|
  {
    forall p, q :: 0 <= p < q <= i && p != j && q != j ==> CodeUnitLe(s[p], s[q])
  }

  /** The element at j is not greater than any element after it up to i. */
  predicate BelowRest(s: seq<string>, i: nat, j: nat)
    requires j <= i < |s|
  {
    forall q :: j < q <= i ==> CodeUnitLe(s[j], s[q])
  }

  /** Swapping an out-of-order element with its left neighbour moves the hole one place left. */
  lemma SwapStep(s: seq<string>, i: nat, j: nat)
    requires 0 < j <= i < |s|
    requires SortedExcept(s, i, j) && BelowRest(s, i, j)
    requires !CodeUnitLe(s[j - 1], s[j])
    ensures var t := s[j - 1 := s[j]][j := s[j - 1]];
      SortedExcept(t, i, j - 1) && BelowRest(t, i, j - 1) && multiset(t) == multiset(s)
  {
    CodeUnitLeTotal(s[j - 1], s[j]);
  }

  /** Once the moved element is not less than its left neighbour, 0..i is in order. */
  lemma SinkDone(s: seq<string>, i: nat, j: nat)
    requires j <= i < |s|
    requires SortedExcept(s, i, j) && BelowRest(s, i, j)
    requires j > 0 ==> CodeUnitLe(s[j - 1], s[j])
    ensures forall p, q :: 0 <= p < q <= i ==> CodeUnitLe(s[p], s[q])
  {
    forall p | 0 <= p < j
      ensures CodeUnitLe(s[p], s[j])
    {
      if p < j - 1 {
        CodeUnitLeTransitive(s[p], s[j - 1], s[j]);
      }
    }
  }



  /**
   * `verify`: the validation message, or the grant lines as displayed
   * (sorted) for the scope string of the credential the request returned.
   */
  method Verify(options: map<string, Value>, scope: string) returns (r: Result<seq<string>, string>)
    ensures VerifyCheck(options).Some? ==> r == Err(VerifyCheck(options).value)
    ensures VerifyCheck(options).None? ==> r.Ok?
    ensures r.Ok? ==> SortedByCodeUnits(r.value) && multiset(r.value) == multiset(GrantLines(scope))
  {
    var check := VerifyCheck(options);
    if check.Some? {
      return Err(check.value);
    }
    var grants := BuildGrants(scope);
    var a := new string[|grants|](k requires 0 <= k < |grants| => grants[k]);
    assert a[..] == grants;
    SortGrants(a);
    r := Ok(a[..]);
  }

  /** Joins each path of segments with '/' (the inverse of splitting one scope). */
  function JoinPaths(paths: seq<seq<string>>): (pieces: seq<string>)
    requires forall i :: 0 <= i < |paths| ==> |paths[i]| >= 1
    ensures |pieces| == |paths|
  {
    seq(|paths|, i requires 0 <= i < |paths| => Join(paths[i], '/'))
  }

  lemma {:induction false} JoinAvoids(pieces: seq<string>, sep: char, c: char)
    requires |pieces| >= 1 && c != sep
    requires forall i :: 0 <= i < |pieces| ==> c !in pieces[i]
    ensures c !in Join(pieces, sep)
    decreases |pieces|
  {
    if |pieces| > 1 {
      JoinAvoids(pieces[1..], sep, c);
      assert pieces[1..][0] == pieces[1];
    }
  }

  /**
   * For a scope string made of space-separated paths whose segments contain
   * neither ' ' nor '/', the grant list holds, per path and in order, its
   * segments 5 and 7 (or "undefined" where the path is too short).
   */
  lemma GrantLinesOfPaths(paths: seq<seq<string>>)
    requires |paths| >= 1
    requires forall i :: 0 <= i < |paths| ==> |paths[i]| >= 1
    requires forall i, k :: 0 <= i < |paths| && 0 <= k < |paths[i]| ==> ' ' !in paths[i][k] && '/' !in paths[i][k]
    ensures var lines := GrantLines(Join(JoinPaths(paths), ' '));
      |lines| == |paths| &&
      forall i :: 0 <= i < |paths| ==> lines[i] == "    " + Item(paths[i], 5) + " : " + Item(paths[i], 7)
  {
    var pieces := JoinPaths(paths);
    forall i | 0 <= i < |paths|
      ensures ' ' !in pieces[i] && Split(pieces[i], '/') == paths[i]
    {
      JoinAvoids(paths[i], '/', ' ');
      SplitUnique(paths[i], '/');
    }
    SplitUnique(pieces, ' ');
  }

  /** An empty scope string is one empty piece, shown as a grant of two undefined items. */
  lemma EmptyScopeShowsOneUndefinedGrant()
    ensures GrantLines("") == ["    undefined : undefined"]
  {
    assert Split("", ' ') == [""];
    assert Split("", '/') == [""];
    assert GrantLine("") == "    undefined : undefined";
  }

  /** GrantLinesOfPaths for exactly two paths, with the joins written out. */
  lemma GrantLinesOfTwoPaths(p1: seq<string>, p2: seq<string>)
    requires |p1| >= 1 && |p2| >= 1
    requires forall k :: 0 <= k < |p1| ==> ' ' !in p1[k] && '/' !in p1[k]
    requires forall k :: 0 <= k < |p2| ==> ' ' !in p2[k] && '/' !in p2[k]
    ensures GrantLines(Join(p1, '/') + " " + Join(p2, '/')) ==
      ["    " + Item(p1, 5) + " : " + Item(p1, 7), "    " + Item(p2, 5) + " : " + Item(p2, 7)]
  {
    var paths := [p1, p2];
    var pieces := JoinPaths(paths);
    assert Join(pieces, ' ') == Join(p1, '/') + " " + Join(p2, '/') by {
      assert pieces == [Join(p1, '/'), Join(p2, '/')];
      assert pieces[1..] == [Join(p2, '/')];
    }
    assert forall i, k :: 0 <= i < |paths| && 0 <= k < |paths[i]| ==> ' ' !in paths[i][k] && '/' !in paths[i][k] by {
      forall i, k | 0 <= i < |paths| && 0 <= k < |paths[i]|
        ensures ' ' !in paths[i][k] && '/' !in paths[i][k]
      {
        if i == 0 { assert paths[i][k] == p1[k]; } else { assert paths[i][k] == p2[k]; }
      }
    }
    GrantLinesOfPaths(paths);
    var lines := GrantLines(Join(pieces, ' '));
    assert |lines| == 2 && lines[0] == "    " + Item(p1, 5) + " : " + Item(p1, 7)
      && lines[1] == "    " + Item(p2, 5) + " : " + Item(p2, 7) by {
      assert paths[0] == p1 && paths[1] == p2;
    }
  }

  /**
   * Two eight-segment scopes that start with '/': item 0 of each split is the
   * empty string, so items 5 and 7 are the fifth and seventh names. The
   * texts and their items are parameters so that the verifier does not
   * evaluate the splits of the literals outright.
   */
  lemma TwoScopeExample(s1: string, s2: string, p1: seq<string>, p2: seq<string>)
    requires s1 == "/a/b/c/d/e/f/g/h" && p1 == ["", "a", "b", "c", "d", "e", "f", "g", "h"]
    requires s2 == "/i/j/k/l/m/n/o/p" && p2 == ["", "i", "j", "k", "l", "m", "n", "o", "p"]
    ensures GrantLines(s1 + " " + s2) == ["    e : g", "    m : o"]
  {
    assert Join(p1, '/') == s1 by { JoinSegments(p1, s1); }
    assert Join(p2, '/') == s2 by { JoinSegments(p2, s2); }
    assert "    " + Item(p1, 5) + " : " + Item(p1, 7) == "    e : g";
    assert "    " + Item(p2, 5) + " : " + Item(p2, 7) == "    m : o";
    GrantLinesOfTwoPaths(p1, p2);
  }

  // ---------------------------------------------------------------------
  // `paste`
  // ---------------------------------------------------------------------

  /**
   * The text `pasteAskBlocks` finally parses: the pasted answer, or, when its
   * first parse has a truthy top-level `host`, the answer under a synthesized
   * section header.
   */
  function PastedText(parse: string -> map<string, Value>, section: Value, answer: string): (t: string)
    ensures |t| >= |answer| && t[|t| - |answer|..] == answer
    ensures t == answer <==> !Truthy(Get(parse(answer), "host"))
    ensures t != answer ==> t[..|t| - |answer|] == "[" + ToJsString(section) + "]\n"
  {
    if Truthy(Get(parse(answer), "host")) then "[" + ToJsString(section) + "]\n" + answer else answer
  }

  /** `pasteAskBlocks`: the parsed credential blocks; the first parse is kept when it has no `host`. */
  function PasteAskBlocks(parse: string -> map<string, Value>, section: Value, answer: string): (r: map<string, Value>)
    ensures r == parse(PastedText(parse, section, answer))
    ensures !Truthy(Get(parse(answer), "host")) ==> r == parse(answer)
  {
    var first := parse(answer);
    if Truthy(Get(first, "host")) then parse("[" + ToJsString(section) + "]\n" + answer) else first
  }

  /** What `paste` hands to the external package: file, section and parsed blocks. */
  datatype PasteCall = PasteCall(filename: Value, section: Value, blocks: map<string, Value>)

  function Paste(options: map<string, Value>, parse: string -> map<string, Value>, answer: string): (r: Result<PasteCall, string>)
    ensures r.Err? <==> Missing(options, "config")
    ensures r.Err? ==> r.error == FileMissing
    ensures r.Ok? ==> r.value.filename == Get(options, "config") && r.value.section == Get(options, "section")
    ensures r.Ok? ==> r.value.blocks == PasteAskBlocks(parse, Get(options, "section"), answer)
  {
    match PasteCheck(options)
    case Some(msg) => Err(msg)
    case None =>
      var section := Get(options, "section");
      Ok(PasteCall(Get(options, "config"), section, PasteAskBlocks(parse, section, answer)))
  }

  // ---------------------------------------------------------------------
  // `copy`
  // ---------------------------------------------------------------------

  /** What `copy` hands to the external package: file, source and target section. */
  datatype CopyCall = CopyCall(filename: Value, from: Value, to: Value)

  function Copy(options: map<string, Value>): (r: Result<CopyCall, string>)
    ensures r.Err? <==> Missing(options, "from") || Missing(options, "to")
    ensures r.Err? ==> r.error == FromToMissing
    ensures r.Ok? ==> r.value == CopyCall(Get(options, "config"), Get(options, "from"), Get(options, "to"))
  {
    match CopyCheck(options)
    case Some(msg) => Err(msg)
    case None => Ok(CopyCall(Get(options, "config"), Get(options, "from"), Get(options, "to")))
  }

  /** `copy` goes ahead without a configuration path: no message is thrown for it. */
  lemma CopyProceedsWithoutConfig(options: map<string, Value>)
    requires !Missing(options, "from") && !Missing(options, "to") && Missing(options, "config")
    ensures Copy(options).Ok? && !Truthy(Copy(options).value.filename)
  {
  }
}
