/**
 * What both front ends share about a credential section: the four fields
 * the tool asks for, in the order it asks, and the prompt questions.
 */
module Credentials {
  import opened JsValues

  const Recognized: seq<string> := ["client_secret", "client_token", "access_token", "host"]

  /** An interactive prompt question: its kind, the answer key and the text shown. */
  datatype Question = Question(kind: string, name: string, message: string)

  function Ask(field: string): (q: Question)
    ensures q.kind == "input" && q.name == field
    ensures q.message == "Please input the " + field + ": "
  {
    Question("input", field, "Please input the " + field + ": ")
  }

  /** One question per field, in the same order. */
  function QuestionsFor(fields: seq<string>): (qs: seq<Question>)
  {
    seq(|fields|, i requires 0 <= i < |fields| => Ask(fields[i]))
  }

  lemma QuestionsForNamesAndTexts(fields: seq<string>)
    ensures forall q :: q in QuestionsFor(fields) ==>
      q.name in fields && q.kind == "input" && q.message == "Please input the " + q.name + ": "
  {
    forall q | q in QuestionsFor(fields)
      ensures q.name in fields && q.kind == "input" && q.message == "Please input the " + q.name + ": "
    {
      var i :| 0 <= i < |fields| && QuestionsFor(fields)[i] == q;
    }
  }

  /** `sub` is `s` with some elements left out and the rest in their order. */
  predicate IsSubsequence(sub: seq<string>, s: seq<string>)
    decreases |s|
  {
    if sub == [] then true
    else if s == [] then false
    else if sub[|sub| - 1] == s[|s| - 1] then IsSubsequence(sub[..|sub| - 1], s[..|s| - 1])
    else IsSubsequence(sub, s[..|s| - 1])
  }

  lemma {:induction false} SubsequenceExtend(sub: seq<string>, s: seq<string>, x: string)
    requires IsSubsequence(sub, s)
    ensures IsSubsequence(sub, s + [x])
    decreases |s|, 1
  {
    var t := s + [x];
    assert t[..|t| - 1] == s;
    if sub != [] && sub[|sub| - 1] == x {
      SubsequencePrefix(sub, s);
    }
  }

  /** Dropping the last element of a subsequence leaves a subsequence. */
  lemma {:induction false} SubsequencePrefix(sub: seq<string>, s: seq<string>)
    requires IsSubsequence(sub, s)
    ensures sub != [] ==> IsSubsequence(sub[..|sub| - 1], s)
    decreases |s|, 0
  {
    if sub != [] && s != [] {
      var s' := s[..|s| - 1];
      if sub[|sub| - 1] == s[|s| - 1] {
        SubsequenceExtend(sub[..|sub| - 1], s', s[|s| - 1]);
        assert s' + [s[|s| - 1]] == s;
      } else {
        SubsequencePrefix(sub, s');
        SubsequenceExtend(sub[..|sub| - 1], s', s[|s| - 1]);
        assert s' + [s[|s| - 1]] == s;
      }
    }
  }

  /**
   * The fields of `fields` whose option is missing, in the order of `fields`:
   * exactly the ones the setup commands ask about.
   */
  function MissingFields(options: map<string, Value>, fields: seq<string>): (r: seq<string>)
    ensures forall f :: f in r <==> f in fields && Missing(options, f)
    ensures IsSubsequence(r, fields)
    decreases |fields|
  {
    if fields == [] then []
    else
      var init := fields[..|fields| - 1];
      var last := fields[|fields| - 1];
      var r0 := MissingFields(options, init);
      assert fields == init + [last];
      if Missing(options, last) then
        var r := r0 + [last];
        assert r[..|r| - 1] == r0;
        r
      else
        SubsequenceExtend(r0, init, last);
        r0
  }

  /**
   * The question list both `setup` commands build before prompting: one
   * question per field of `list` whose option is missing, in list order.
   */
  method MissingFieldQuestions(options: map<string, Value>, list: seq<string>) returns (questions: seq<Question>)
    ensures questions == QuestionsFor(MissingFields(options, list))
    ensures forall q :: q in questions ==> q.name in list && Missing(options, q.name)
    ensures forall q :: q in questions ==> q.kind == "input" && q.message == "Please input the " + q.name + ": "
  {
    questions := [];
    for i := 0 to |list|
      invariant questions == QuestionsFor(MissingFields(options, list[..i]))
    {
      var field := list[i];
      assert list[..i + 1][..i] == list[..i];
      ghost var asked := MissingFields(options, list[..i]);
      if Missing(options, field) {
        assert QuestionsFor(asked + [field]) == QuestionsFor(asked) + [Ask(field)];
        questions := questions + [Ask(field)];
      }
    }
    assert list[..|list|] == list;
    QuestionsForNamesAndTexts(MissingFields(options, list));
  }
}
