/**
 * The older library variant (class edgeGridAuth in src/egauth.js): quote
 * stripping before the configuration file is written, section selection
 * when it is read, the section rebuilt by `setup`, the single grant line of
 * `verify` and the status check of `makeRequest`. The parser, the
 * serializer and the prompt are external and appear as function parameters.
 */
module EgAuth {
  import opened Wrappers
  import opened JsValues
  import opened JsStrings
  import opened Credentials
  import CliAuth

  // ---------------------------------------------------------------------
  // writeConfigFile: quote stripping
  // ---------------------------------------------------------------------

  predicate IsQuote(c: char)
  {
    c == '\'' || c == '"'
  }

  predicate QuoteFree(s: string)
  {
    forall i :: 0 <= i < |s| ==> !IsQuote(s[i])
  }

  /** Length of the run of quote characters at the front of `s`. */
  function QuoteRun(s: string): (n: nat)
    ensures n <= |s|
    ensures forall i :: 0 <= i < n ==> IsQuote(s[i])
    ensures n < |s| ==> !IsQuote(s[n])
    decreases |s|
  {
    if s != [] && IsQuote(s[0]) then 1 + QuoteRun(s[1..]) else 0
  }

  /**
   * The global replace of the pattern "one or more quote characters" by the
   * empty string: scanning left to right, each maximal run of quotes goes.
   */
  function ReplaceQuoteRuns(s: string): (r: string)
    ensures QuoteFree(r)
    decreases |s|
  {
    if s == [] then []
    else if IsQuote(s[0]) then ReplaceQuoteRuns(s[QuoteRun(s)..])
    else [s[0]] + ReplaceQuoteRuns(s[1..])
  }

  /** Reference definition: the characters of `s` that are not quotes, in order. */
  function WithoutQuotes(s: string): string
  {
    if s == [] then [] else (if IsQuote(s[0]) then [] else [s[0]]) + WithoutQuotes(s[1..])
  }

  lemma {:induction false} WithoutQuotesSkipsRun(s: string, k: nat)
    requires k <= |s|
    requires forall i :: 0 <= i < k ==> IsQuote(s[i])
    ensures WithoutQuotes(s) == WithoutQuotes(s[k..])
    decreases k
  {
    if k > 0 {
      WithoutQuotesSkipsRun(s[1..], k - 1);
      assert s[1..][k - 1..] == s[k..];
    }
  }

  /** The regular-expression replace removes exactly the quote characters. */
  lemma {:induction false} ReplaceQuoteRunsIsFilter(s: string)
    ensures ReplaceQuoteRuns(s) == WithoutQuotes(s)
    decreases |s|
  {
    if s != [] {
      if IsQuote(s[0]) {
        var n := QuoteRun(s);
        WithoutQuotesSkipsRun(s, n);
        ReplaceQuoteRunsIsFilter(s[n..]);
      } else {
        ReplaceQuoteRunsIsFilter(s[1..]);
      }
    }
  }

  lemma {:induction false} WithoutQuotesAppend(a: string, b: string)
    ensures WithoutQuotes(a + b) == WithoutQuotes(a) + WithoutQuotes(b)
    decreases |a|
  {
    if a == [] {
      assert a + b == b;
    } else {
      assert (a + b)[0] == a[0] && (a + b)[1..] == a[1..] + b;
      WithoutQuotesAppend(a[1..], b);
    }
  }

  /** Quote-free text passes unchanged. */
  lemma {:induction false} QuoteFreeUnchanged(s: string)
    requires QuoteFree(s)
    ensures WithoutQuotes(s) == s
    decreases |s|
  {
    if s != [] {
      QuoteFreeUnchanged(s[1..]);
    }
  }

  lemma {:induction false} WithoutQuotesIsQuoteFree(s: string)
    ensures QuoteFree(WithoutQuotes(s))
    decreases |s|
  {
    if s != [] {
      WithoutQuotesIsQuoteFree(s[1..]);
    }
  }

  /** Stripping twice strips nothing more. */
  lemma StripIdempotent(s: string)
    ensures ReplaceQuoteRuns(ReplaceQuoteRuns(s)) == ReplaceQuoteRuns(s)
  {
    QuoteFreeUnchanged(ReplaceQuoteRuns(s));
    ReplaceQuoteRunsIsFilter(ReplaceQuoteRuns(s));
  }

  /** Every character other than a quote keeps its number of occurrences. */
  lemma {:induction false} StripKeepsOtherCharacters(s: string, c: char)
    requires !IsQuote(c)
    ensures Count(ReplaceQuoteRuns(s), c) == Count(s, c)
    decreases |s|
  {
    ReplaceQuoteRunsIsFilter(s);
    if s != [] {
      StripKeepsOtherCharacters(s[1..], c);
      ReplaceQuoteRunsIsFilter(s[1..]);
      if !IsQuote(s[0]) {
        assert ([s[0]] + WithoutQuotes(s[1..]))[1..] == WithoutQuotes(s[1..]);
      }
    }
  }

  /** The text `writeConfigFile` hands to the file system. */
  function WriteConfigFile(contents: string): (written: string)
    ensures QuoteFree(written)
    ensures written == WithoutQuotes(contents)
  {
    ReplaceQuoteRunsIsFilter(contents);
    ReplaceQuoteRuns(contents)
  }

  // ---------------------------------------------------------------------
  // readConfigFile
  // ---------------------------------------------------------------------

  /**
   * `readConfigFile`: `read` is the file's text, or None when reading
   * failed; the promise then resolves with undefined instead of rejecting.
   * With a truthy section it resolves with that property of the parsed
   * object, otherwise with the whole object.
   */
  function ReadConfigFile(read: Option<string>, section: Value, parse: string -> map<string, Value>): (r: Value)
    ensures read.None? ==> r == Undefined
    ensures read.Some? && !Truthy(section) ==> r == Obj(parse(read.value))
    ensures read.Some? && Truthy(section) ==> r == Get(parse(read.value), ToJsString(section))
  {
    match read
    case None => Undefined
    case Some(text) =>
      var config := parse(text);
      if Truthy(section) then Get(config, ToJsString(section)) else Obj(config)
  }

  /** Property access on a value: undefined unless the value is an object holding the key. */
  function Lookup(v: Value, key: string): Value
  {
    if v.Obj? then Get(v.fields, key) else Undefined
  }

  /** Reading one section is looking it up in what reading the whole file gives. */
  lemma ReadSectionIsLookup(read: Option<string>, section: Value, parse: string -> map<string, Value>)
    requires Truthy(section)
    ensures ReadConfigFile(read, section, parse) == Lookup(ReadConfigFile(read, Undefined, parse), ToJsString(section))
  {
  }

  // ---------------------------------------------------------------------
  // makeRequest
  // ---------------------------------------------------------------------

  const RejectPrefix: string := "Unable to complete action.  Status code "

  /** How the promise of `makeRequest` settles for a response status. */
  datatype Settlement = Resolved(statusCode: int) | Rejected(reason: string)

  function MakeRequest(statusCode: int): (r: Settlement)
    ensures r.Resolved? <==> statusCode == 200
    ensures r.Resolved? ==> r.statusCode == statusCode
    ensures r.Rejected? ==> |r.reason| > |RejectPrefix| && r.reason[..|RejectPrefix|] == RejectPrefix
    ensures r.Rejected? ==> r.reason == RejectPrefix + NumberToString(statusCode)
  {
    if statusCode != 200 then Rejected(RejectPrefix + NumberToString(statusCode)) else Resolved(statusCode)
  }

  /** The rejection reason names the status code, which reads back from it. */
  lemma RejectionNamesStatus(statusCode: int)
    requires statusCode != 200
    ensures MakeRequest(statusCode).Rejected?
    ensures MakeRequest(statusCode).reason[|RejectPrefix|..] == NumberToString(statusCode)
    ensures ParseNumber(MakeRequest(statusCode).reason[|RejectPrefix|..]) == statusCode
  {
    var reason := MakeRequest(statusCode).reason;
    assert reason[|RejectPrefix|..] == NumberToString(statusCode);
    NumberToStringRoundTrip(statusCode);
  }

  // ---------------------------------------------------------------------
  // verify: the grant line
  // ---------------------------------------------------------------------

  /** `s.split()` with no separator: the whole string is the only piece. */
  function SplitWhole(s: string): (pieces: seq<string>)
    ensures |pieces| == 1 && pieces[0] == s
  {
    [s]
  }

  /** The grant lines `verify` prints: one per piece of the scope split without separator. */
  function VerifyGrantLines(scope: string): (lines: seq<string>)
    ensures |lines| == 1
    ensures lines[0] == Item(Split(scope, '/'), 5) + " : " + Item(Split(scope, '/'), 7)
  {
    var pieces := SplitWhole(scope);
    seq(|pieces|, i requires 0 <= i < |pieces| =>
      Item(Split(pieces[i], '/'), 5) + " : " + Item(Split(pieces[i], '/'), 7))
  }

  /**
   * For a scope string without spaces both variants show the same single
   * grant, the command-line one indented by four spaces; with a space the
   * command-line variant shows more lines than this one.
   */
  lemma VerifyVariantsAgree(scope: string)
    ensures ' ' !in scope ==> CliAuth.GrantLines(scope) == ["    " + VerifyGrantLines(scope)[0]]
    ensures ' ' in scope ==> |CliAuth.GrantLines(scope)| > |VerifyGrantLines(scope)|
  {
    if ' ' !in scope {
      SplitWithoutSeparator(scope, ' ');
      var a, b := Item(Split(scope, '/'), 5), Item(Split(scope, '/'), 7);
      assert CliAuth.GrantLine(scope) == "    " + a + " : " + b;
      assert VerifyGrantLines(scope)[0] == a + " : " + b;
      assert "    " + a + " : " + b == "    " + (a + " : " + b);
    } else {
      CountPositive(scope, ' ');
    }
  }

  /** The lines `verify` would print with the scope split on ' ', one per scope. */
  function VerifyGrantLinesPerScope(scope: string): (lines: seq<string>)
    ensures |lines| == Count(scope, ' ') + 1
  {
    var pieces := Split(scope, ' ');
    SplitLength(scope, ' ');
    seq(|pieces|, i requires 0 <= i < |pieces| =>
      Item(Split(pieces[i], '/'), 5) + " : " + Item(Split(pieces[i], '/'), 7))
  }

  /** Per scope, the corrected lines are the command-line variant's lines without the indent. */
  lemma PerScopeMatchesCliAuth(scope: string, i: nat)
    requires i < Count(scope, ' ') + 1
    ensures |CliAuth.GrantLines(scope)| == |VerifyGrantLinesPerScope(scope)|
    ensures CliAuth.GrantLines(scope)[i] == "    " + VerifyGrantLinesPerScope(scope)[i]
  {
    SplitLength(scope, ' ');
    var pieces := Split(scope, ' ');
    var a, b := Item(Split(pieces[i], '/'), 5), Item(Split(pieces[i], '/'), 7);
    assert "    " + a + " : " + b == "    " + (a + " : " + b);
  }

  /**
   * A scope path of at least nine '/'-separated segments followed by a space
   * and anything else: the split without separator keeps the whole string,
   * so one line is printed, from the first scope's items 5 and 7, and every
   * later scope is lost, while splitting on ' ' gives at least two lines.
   */
  lemma VerifyDropsLaterScopes(path: seq<string>, rest: string)
    requires |path| >= 9
    requires forall k :: 0 <= k < |path| ==> '/' !in path[k]
    ensures VerifyGrantLines(Join(path, '/') + " " + rest) == [path[5] + " : " + path[7]]
    ensures |VerifyGrantLinesPerScope(Join(path, '/') + " " + rest)| >= 2
  {
    var scope := Join(path, '/') + " " + rest;
    FirstScopeItems(path, " " + rest);
    assert scope == Join(path, '/') + (" " + rest);
    assert ' ' in scope by { assert scope[|Join(path, '/')|] == ' '; }
    SeveralScopesSeveralLines(scope);
  }

  /** Items 5 and 7 of the '/'-split come from the first path when text follows it. */
  lemma FirstScopeItems(path: seq<string>, t: string)
    requires |path| >= 9
    requires forall k :: 0 <= k < |path| ==> '/' !in path[k]
    ensures Item(Split(Join(path, '/') + t, '/'), 5) == path[5]
    ensures Item(Split(Join(path, '/') + t, '/'), 7) == path[7]
  {
    LeadingPieces(path, '/', t);
    var items := Split(Join(path, '/') + t, '/');
    assert items[5] == items[..|path| - 1][5] && items[7] == items[..|path| - 1][7];
  }

  /** A scope string with a space yields at least two lines once split on ' '. */
  lemma SeveralScopesSeveralLines(scope: string)
    requires ' ' in scope
    ensures |VerifyGrantLinesPerScope(scope)| >= 2
  {
    CountPositive(scope, ' ');
  }

  lemma {:induction false} CountPositive(s: string, c: char)
    requires c in s
    ensures Count(s, c) >= 1
    decreases |s|
  {
    if s[0] != c {
      assert c in s[1..] by {
        var i :| 0 <= i < |s| && s[i] == c;
        assert s[1..][i - 1] == c;
      }
      CountPositive(s[1..], c);
    }
  }

  // ---------------------------------------------------------------------
  // setup
  // ---------------------------------------------------------------------

  /** A parsed configuration object: properties are sections (or top-level keys). */
  class ConfigObject {
    var entries: map<string, Value>

    constructor (entries: map<string, Value>)
      ensures this.entries == entries
    {
      this.entries := entries;
    }
  }

  /** The property key the section option turns into. */
  function SectionKey(options: map<string, Value>): (key: string)
    ensures "section" in options && options["section"].Str? ==> key == options["section"].s
    ensures "section" !in options ==> key == "undefined"
  {
    ToJsString(Get(options, "section"))
  }

  /** An object holding the given fields, assigned one after another from the merged options. */
  function FieldsFrom(fields: seq<string>, merged: map<string, Value>): (r: map<string, Value>)
    ensures fields != [] ==> fields[|fields| - 1] in r && r[fields[|fields| - 1]] == Get(merged, fields[|fields| - 1])
    decreases |fields|
  {
    if fields == [] then map[]
    else FieldsFrom(fields[..|fields| - 1], merged)[fields[|fields| - 1] := Get(merged, fields[|fields| - 1])]
  }

  /** The object holds exactly the listed fields, each with its merged value. */
  lemma {:induction false} FieldsFromContents(fields: seq<string>, merged: map<string, Value>, f: string)
    ensures f in FieldsFrom(fields, merged) <==> f in fields
    ensures f in fields ==> FieldsFrom(fields, merged)[f] == Get(merged, f)
    decreases |fields|
  {
    if fields != [] {
      var init := fields[..|fields| - 1];
      FieldsFromContents(init, merged, f);
      assert fields == init + [fields[|fields| - 1]];
    }
  }

  /** Building from one more field adds just that field's merged value. */
  lemma FieldsFromStep(fields: seq<string>, i: nat, merged: map<string, Value>)
    requires i < |fields|
    ensures FieldsFrom(fields[..i + 1], merged) == FieldsFrom(fields[..i], merged)[fields[i] := Get(merged, fields[i])]
  {
    assert fields[..i + 1][..i] == fields[..i];
  }

  /** The rebuilt section: the four recognized fields, read from the merged options. */
  function FreshSection(merged: map<string, Value>): map<string, Value>
  {
    FieldsFrom(Recognized, merged)
  }

  /** The configuration `setup` serializes: the target section replaced, the rest kept. */
  function SetupEntries(before: map<string, Value>, merged: map<string, Value>): map<string, Value>
  {
    before[SectionKey(merged) := Obj(FreshSection(merged))]
  }

  /** Sets the property `key` to a new object and copies the listed fields into it one by one. */
  method RebuildSection(config: ConfigObject, key: string, list: seq<string>, merged: map<string, Value>)
    modifies config
    ensures config.entries == old(config.entries)[key := Obj(FieldsFrom(list, merged))]
  {
    config.entries := config.entries[key := Obj(map[])];
    for i := 0 to |list|
      invariant config.entries == old(config.entries)[key := Obj(FieldsFrom(list[..i], merged))]
    {
      var field := list[i];
      var section := config.entries[key].fields;
      FieldsFromStep(list, i, merged);
      config.entries := config.entries[key := Obj(section[field := Get(merged, field)])];
    }
    assert list[..|list|] == list;
  }


  /**
   * `setup`: ask for the missing recognized fields, merge the answers into
   * the options (answers win), rebuild the target section in the current
   * configuration object (or a new one when none was read) and write it.
   */
  method Setup(options: map<string, Value>, current: ConfigObject?,
               prompt: seq<Question> -> map<string, Value>,
               stringify: map<string, Value> -> string)
    returns (questions: seq<Question>, config: ConfigObject, written: string)
    modifies current
    ensures questions == QuestionsFor(MissingFields(options, Recognized))
    ensures current != null ==> config == current
    ensures current == null ==> fresh(config)
    ensures config.entries == SetupEntries(if current == null then map[] else old(current.entries), options + prompt(questions))
    ensures written == WriteConfigFile(stringify(config.entries))
  {
    questions := MissingFieldQuestions(options, Recognized);
    var merged := options + prompt(questions);
    if current == null {
      config := new ConfigObject(map[]);
    } else {
      config := current;
    }
    RebuildSection(config, SectionKey(merged), Recognized, merged);
    written := WriteConfigFile(stringify(config.entries));
  }

  /**
   * The target section holds exactly the recognized fields; each comes from
   * the answers when there is one, otherwise from the options.
   */
  lemma SetupSectionFields(before: map<string, Value>, options: map<string, Value>, answers: map<string, Value>, f: string)
    ensures var key := SectionKey(options + answers);
      var after := SetupEntries(before, options + answers);
      key in after && after[key].Obj? &&
      (f in after[key].fields <==> f in Recognized) &&
      (f in Recognized ==> after[key].fields[f] == if f in answers then answers[f] else Get(options, f))
  {
    FieldsFromContents(Recognized, options + answers, f);
  }

  /** Every other section, and every other top-level key, is left as it was. */
  lemma SetupKeepsOtherSections(before: map<string, Value>, merged: map<string, Value>, k: string)
    requires k != SectionKey(merged)
    ensures var after := SetupEntries(before, merged);
      (k in after <==> k in before) && (k in before ==> after[k] == before[k])
  {
  }

  /** With no configuration read, the result has the target section and nothing else. */
  lemma SetupFromNothing(merged: map<string, Value>)
    ensures SetupEntries(map[], merged).Keys == {SectionKey(merged)}
  {
  }

  /**
   * When the prompt answers only the questions asked, the section key is the
   * option's, given options are kept and asked fields take their answers.
   */
  lemma SetupKeepsGivenOptions(before: map<string, Value>, options: map<string, Value>, answers: map<string, Value>, f: string)
    requires forall k :: k in answers ==> k in MissingFields(options, Recognized)
    requires f in Recognized
    ensures SectionKey(options + answers) == SectionKey(options)
    ensures var after := SetupEntries(before, options + answers);
      SectionKey(options) in after && after[SectionKey(options)].Obj? && f in after[SectionKey(options)].fields &&
      after[SectionKey(options)].fields[f] == if Missing(options, f) && f in answers then answers[f] else Get(options, f)
  {
    assert "section" !in answers;
    assert Get(options + answers, "section") == Get(options, "section");
    FieldsFromContents(Recognized, options + answers, f);
    if f in answers {
      assert Missing(options, f);
    }
  }
}
