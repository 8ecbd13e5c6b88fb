/** The SQL-to-`find` translator: the three rule tables, the WHERE-clause
    condition extractor, the SELECT translator and the dispatcher keyed by
    statement type. */
module Translators {
  import opened Wrappers
  import opened PyText
  import opened SqlTokens

  /** Why a statement produced no command. Each stands for the Python
      exception the source raises at that point. */
  datatype Error =
    | UnsupportedStatement(kind: string)   // no entry in TRANSLATORS: calling None
    | MissingKeyword(word: string)         // token_index of a keyword that was not found
    | MissingToken(after: string)          // nothing follows SELECT or FROM
    | UnknownAttribute(name: string)       // KeyError in ATTRS
    | UnknownField(name: string)           // KeyError in CONDITIONS
    | UnsupportedComparator(op: string)    // KeyError in COMPARISON
    | MalformedCondition                   // no comparison where one is expected

  // ---------------------------------------------------------------------
  // Rule tables

  /** Field name to `find` filter template. */
  const CONDITIONS: map<string, string> := map["sz" := "-size {}{}c", "perm" := "-perm {}"]

  /** Comparator to the modifier `find` puts in front of a numeric argument. */
  const COMPARISON: map<string, string> := map["<" := "-", "=" := "", ">" := "+"]

  /** Projection attribute to `-printf` placeholder. */
  const ATTRS: map<string, string> := map["name" := "%p", "sz" := "%s", "perm" := "%M"]

  // ---------------------------------------------------------------------
  // Condition extraction

  /** One extracted condition: (operator, left value, comparison, right value). */
  datatype Condition = Condition(connective: string, field: string, comparator: string, value: string)

  /** `op.match(Keyword, ['AND', 'OR'])`. */
  predicate IsConnective(t: Token) {
    Matches(t, KeywordPattern(Plain, "AND")) || Matches(t, KeywordPattern(Plain, "OR"))
  }

  /** The connective recorded for a keyword: `'-' + op.value.lower()`. */
  function Flag(t: Token): string
    requires t.Keyword?
  {
    "-" + Lower(t.text)
  }

  /** The tuple recorded for a comparison token. */
  function Record(connective: string, t: Token): Condition
    requires t.Comparison?
  {
    Condition(connective, t.left, t.op, t.right)
  }

  function Prepend(head: seq<Condition>, r: Result<seq<Condition>, Error>): Result<seq<Condition>, Error> {
    match r
    case Success(tail) => Success(head + tail)
    case Failure(e) => Failure(e)
  }

  /** The conditions read from `rest`, which starts right after a comparison:
      nothing when it does not start with AND/OR, otherwise the connective,
      the comparison after it and whatever follows that. */
  function Chain(rest: seq<Token>): Result<seq<Condition>, Error>
    decreases |rest|
  {
    if |rest| == 0 || !IsConnective(rest[0]) then Success([])
    else if |rest| < 2 || !rest[1].Comparison? then Failure(MalformedCondition)
    else Prepend([Record(Flag(rest[0]), rest[1])], Chain(rest[2..]))
  }

  /** The conditions of a WHERE group, whose `items[0]` is the WHERE keyword. */
  function WhereConditions(items: seq<Token>): Result<seq<Condition>, Error> {
    if |items| < 2 || !items[1].Comparison? then Failure(MalformedCondition)
    else Prepend([Record("", items[1])], Chain(items[2..]))
  }

  /** `_get_where_cond`: walks the WHERE group with a cursor, appending one
      tuple per comparison for as long as an AND/OR keyword follows. */
  method GetWhereConditions(items: seq<Token>) returns (r: Result<seq<Condition>, Error>)
    ensures r == WhereConditions(items)
  {
    var idx: nat := 0;
    var compare := TokenNext(items, idx);
    if compare.None? || !items[compare.value].Comparison? {
      return Failure(MalformedCondition);
    }
    var cond := [Record("", items[compare.value])];
    idx := compare.value;
    var op := TokenNext(items, idx);
    while op.Some? && IsConnective(items[op.value])
      invariant idx < |items|
      invariant op == TokenNext(items, idx)
      invariant WhereConditions(items) == Prepend(cond, Chain(items[idx + 1..]))
      decreases |items| - idx
    {
      ChainStep(items, idx, cond);
      idx := op.value;
      compare := TokenNext(items, idx);
      if compare.None? || !items[compare.value].Comparison? {
        return Failure(MalformedCondition);
      }
      cond := cond + [Record(Flag(items[idx]), items[compare.value])];
      idx := compare.value;
      op := TokenNext(items, idx);
    }
    assert cond + [] == cond;
    return Success(cond);
  }

  /** One turn of the cursor loop: after the comparison at `i`, a connective
      either brings the next comparison into the list read so far or, when
      no comparison follows it, makes the group malformed. */
  lemma ChainStep(items: seq<Token>, i: nat, cond: seq<Condition>)
    requires i + 1 < |items| && IsConnective(items[i + 1])
    ensures i + 2 < |items| && items[i + 2].Comparison? ==>
              Prepend(cond, Chain(items[i + 1..])) ==
              Prepend(cond + [Record(Flag(items[i + 1]), items[i + 2])], Chain(items[i + 3..]))
    ensures !(i + 2 < |items| && items[i + 2].Comparison?) ==>
              Prepend(cond, Chain(items[i + 1..])) == Failure(MalformedCondition)
  {
    var rest := items[i + 1..];
    assert rest[0] == items[i + 1];
    if i + 2 < |items| && items[i + 2].Comparison? {
      assert rest[1] == items[i + 2] && rest[2..] == items[i + 3..];
      var x := Record(Flag(items[i + 1]), items[i + 2]);
      assert forall tail :: cond + ([x] + tail) == cond + [x] + tail;
    }
  }

  /** The words the source searches for (AND, OR, SELECT, FROM) are already
      upper-case, so they are their own normalised forms; and AND/OR
      lower-case to the connective words. */
  lemma KeywordWords()
    ensures Upper("AND") == "AND" && Upper("OR") == "OR"
    ensures Upper("SELECT") == "SELECT" && Upper("FROM") == "FROM"
    ensures Lower("AND") == "and" && Lower("OR") == "or"
  {
    assert Upper("AND") == "AND" by { assert forall i :: 0 <= i < 3 ==> Upper("AND")[i] == "AND"[i]; }
    assert Upper("OR") == "OR" by { assert forall i :: 0 <= i < 2 ==> Upper("OR")[i] == "OR"[i]; }
    assert Upper("SELECT") == "SELECT" by { assert forall i :: 0 <= i < 6 ==> Upper("SELECT")[i] == "SELECT"[i]; }
    assert Upper("FROM") == "FROM" by { assert forall i :: 0 <= i < 4 ==> Upper("FROM")[i] == "FROM"[i]; }
    assert Lower("AND") == "and" by { assert forall i :: 0 <= i < 3 ==> Lower("AND")[i] == "and"[i]; }
    assert Lower("OR") == "or" by { assert forall i :: 0 <= i < 2 ==> Lower("OR")[i] == "or"[i]; }
  }

  /** Every connective keyword, in whatever case it was written, is
      recorded as `-and` or `-or`. */
  lemma ConnectiveFlag(t: Token)
    requires IsConnective(t)
    ensures Flag(t) == "-and" || Flag(t) == "-or"
    ensures Flag(t) == "-and" <==> Upper(t.text) == "AND"
  {
    KeywordWords();
    if Upper(t.text) == Upper("AND") {
      LowerOfUpper(t.text, "AND");
    } else {
      LowerOfUpper(t.text, "OR");
      assert Flag(t) != "-and" by { assert Flag(t)[1] == 'o'; }
    }
  }

  /** The k-th comparison of a WHERE group sits at position 2k + 1 ... */
  function ComparisonAt(items: seq<Token>, k: nat): Token
    requires 2 * k + 1 < |items|
  {
    items[2 * k + 1]
  }

  /** ... and, for k >= 1, the keyword that joins it to the previous one
      at position 2k. */
  function ConnectiveAt(items: seq<Token>, k: nat): Token
    requires 2 * k < |items|
  {
    items[2 * k]
  }

  /** `items` holds n comparisons at positions 1, 3, ..., 2n-1, an AND/OR
      keyword between each two of them, and the token after the last
      comparison, if there is one, is not AND/OR. */
  ghost predicate Alternation(items: seq<Token>, n: nat) {
    && n >= 1
    && 2 * n <= |items|
    && (forall k :: 0 <= k < n ==> ComparisonAt(items, k).Comparison?)
    && (forall k :: 1 <= k < n ==> IsConnective(ConnectiveAt(items, k)))
    && (2 * n == |items| || !IsConnective(items[2 * n]))
  }

  /** The tuples an alternation stands for, read off comparison by comparison. */
  ghost function Readings(items: seq<Token>, n: nat): (cs: seq<Condition>)
    requires Alternation(items, n)
    ensures |cs| == n
  {
    seq(n, k requires 0 <= k < n =>
      Record(if k == 0 then "" else Flag(ConnectiveAt(items, k)), ComparisonAt(items, k)))
  }

  /** `rest` (what follows a comparison) holds m links "AND/OR keyword,
      comparison" and then something that is not AND/OR. */
  ghost predicate Links(rest: seq<Token>, m: nat) {
    && 2 * m <= |rest|
    && (forall k :: 0 <= k < m ==> IsConnective(ConnectiveAt(rest, k)) && ComparisonAt(rest, k).Comparison?)
    && (2 * m == |rest| || !IsConnective(rest[2 * m]))
  }

  ghost function LinkReadings(rest: seq<Token>, m: nat): (ls: seq<Condition>)
    requires Links(rest, m)
    ensures |ls| == m
  {
    seq(m, k requires 0 <= k < m => Record(Flag(ConnectiveAt(rest, k)), ComparisonAt(rest, k)))
  }

  lemma {:induction false} ChainSound(rest: seq<Token>)
    requires Chain(rest).Success?
    ensures Links(rest, |Chain(rest).value|)
    ensures Chain(rest).value == LinkReadings(rest, |Chain(rest).value|)
    decreases |rest|
  {
    var ls := Chain(rest).value;
    if |rest| > 0 && IsConnective(rest[0]) {
      var next := rest[2..];
      ChainSound(next);
      var tail := Chain(next).value;
      assert ls == [Record(Flag(rest[0]), rest[1])] + tail;
      forall k | 1 <= k < |ls|
        ensures ConnectiveAt(rest, k) == ConnectiveAt(next, k - 1)
        ensures ComparisonAt(rest, k) == ComparisonAt(next, k - 1)
      {
      }
      assert Links(rest, |ls|);
      forall k | 0 <= k < |ls|
        ensures ls[k] == LinkReadings(rest, |ls|)[k]
      {
        if k > 0 { assert ls[k] == tail[k - 1]; }
      }
    }
  }

  lemma {:induction false} ChainComplete(rest: seq<Token>, m: nat)
    requires Links(rest, m)
    ensures Chain(rest) == Success(LinkReadings(rest, m))
    decreases m
  {
    if m > 0 {
      var next := rest[2..];
      assert IsConnective(ConnectiveAt(rest, 0)) && ComparisonAt(rest, 0).Comparison?;
      forall k | 0 <= k < m - 1
        ensures ConnectiveAt(next, k) == ConnectiveAt(rest, k + 1)
        ensures ComparisonAt(next, k) == ComparisonAt(rest, k + 1)
      {
      }
      assert 2 * (m - 1) == |next| || next[2 * (m - 1)] == rest[2 * m];
      assert Links(next, m - 1);
      ChainComplete(next, m - 1);
      var ls := [Record(Flag(rest[0]), rest[1])] + LinkReadings(next, m - 1);
      assert Chain(rest) == Success(ls);
      forall k | 0 <= k < m
        ensures ls[k] == LinkReadings(rest, m)[k]
      {
      }
      assert ls == LinkReadings(rest, m);
    } else {
      assert LinkReadings(rest, m) == [];
    }
  }

  /** The links of a WHERE group are its conditions from the second on. */
  lemma AlternationLinks(items: seq<Token>, n: nat)
    requires n >= 1 && 2 * n <= |items|
    ensures Alternation(items, n) <==> ComparisonAt(items, 0).Comparison? && Links(items[2..], n - 1)
    ensures Links(items[2..], n - 1) ==>
              forall k :: 1 <= k < n ==> ConnectiveAt(items, k) == ConnectiveAt(items[2..], k - 1) &&
                                         ComparisonAt(items, k) == ComparisonAt(items[2..], k - 1)
  {
    var rest := items[2..];
    forall k | 1 <= k < n
      ensures ConnectiveAt(items, k) == ConnectiveAt(rest, k - 1)
      ensures ComparisonAt(items, k) == ComparisonAt(rest, k - 1)
    {
    }
    assert 2 * n == |items| || items[2 * n] == rest[2 * (n - 1)];
    if Alternation(items, n) {
      forall k | 0 <= k < n - 1
        ensures IsConnective(ConnectiveAt(rest, k)) && ComparisonAt(rest, k).Comparison?
      {
        assert ConnectiveAt(rest, k) == ConnectiveAt(items, k + 1);
        assert ComparisonAt(rest, k) == ComparisonAt(items, k + 1);
      }
    }
    if ComparisonAt(items, 0).Comparison? && Links(rest, n - 1) {
      forall k | 0 <= k < n
        ensures ComparisonAt(items, k).Comparison?
      {
        if k > 0 { assert ComparisonAt(items, k) == ComparisonAt(rest, k - 1); }
      }
      forall k | 1 <= k < n
        ensures IsConnective(ConnectiveAt(items, k))
      {
        assert ConnectiveAt(items, k) == ConnectiveAt(rest, k - 1);
      }
    }
  }

  /** A WHERE group yields conditions only when it is an alternation of
      comparisons and AND/OR keywords, and then yields exactly one tuple per
      comparison, in source order, with the first connective empty. */
  lemma WhereConditionsSound(items: seq<Token>)
    requires WhereConditions(items).Success?
    ensures Alternation(items, |WhereConditions(items).value|)
    ensures WhereConditions(items).value == Readings(items, |WhereConditions(items).value|)
  {
    var cs := WhereConditions(items).value;
    var n := |cs|;
    ChainSound(items[2..]);
    var tail := Chain(items[2..]).value;
    assert cs == [Record("", items[1])] + tail;
    AlternationLinks(items, n);
    forall k | 0 <= k < n
      ensures cs[k] == Readings(items, n)[k]
    {
      if k > 0 { assert cs[k] == tail[k - 1]; }
    }
  }

  /** Conversely, every alternation of n comparisons yields its n tuples. */
  lemma WhereConditionsComplete(items: seq<Token>, n: nat)
    requires Alternation(items, n)
    ensures WhereConditions(items) == Success(Readings(items, n))
  {
    AlternationLinks(items, n);
    ChainComplete(items[2..], n - 1);
    var cs := [Record("", items[1])] + LinkReadings(items[2..], n - 1);
    assert WhereConditions(items) == Success(cs);
    forall k | 0 <= k < n
      ensures cs[k] == Readings(items, n)[k]
    {
    }
    assert cs == Readings(items, n);
  }

  /** Extraction never looks past the token that ends the alternation:
      replacing everything after it leaves the conditions unchanged. */
  lemma UnexaminedSuffix(items: seq<Token>, more: seq<Token>)
    requires WhereConditions(items).Success?
    requires 2 * |WhereConditions(items).value| < |items|
    ensures WhereConditions(items[..2 * |WhereConditions(items).value| + 1] + more) == WhereConditions(items)
  {
    var n := |WhereConditions(items).value|;
    WhereConditionsSound(items);
    var items' := items[..2 * n + 1] + more;
    forall k | 0 <= k < n
      ensures ComparisonAt(items', k) == ComparisonAt(items, k)
      ensures ConnectiveAt(items', k) == ConnectiveAt(items, k)
    {
    }
    assert items'[2 * n] == items[2 * n];
    assert Alternation(items', n);
    WhereConditionsComplete(items', n);
    assert Readings(items', n) == Readings(items, n);
  }

  /** The connectives a well-formed condition list can carry. */
  ghost predicate WellFormed(cs: seq<Condition>) {
    && |cs| >= 1
    && cs[0].connective == ""
    && forall k :: 1 <= k < |cs| ==> cs[k].connective == "-and" || cs[k].connective == "-or"
  }

  /** Every successful extraction is well formed: the first connective is
      empty and every later one is `-and` or `-or`. */
  lemma WhereConditionsWellFormed(items: seq<Token>)
    requires WhereConditions(items).Success?
    ensures WellFormed(WhereConditions(items).value)
  {
    var cs := WhereConditions(items).value;
    WhereConditionsSound(items);
    forall k | 1 <= k < |cs|
      ensures cs[k].connective == "-and" || cs[k].connective == "-or"
    {
      assert cs[k] == Readings(items, |cs|)[k];
      ConnectiveFlag(ConnectiveAt(items, k));
    }
  }

  /** The comparison token a condition was read from. */
  function ComparisonOf(c: Condition): Token {
    Comparison(c.field, c.comparator, c.value)
  }

  /** The keyword written for a recorded connective. */
  function KeywordOf(connective: string): string {
    if connective == "-and" then "AND" else "OR"
  }

  /** The WHERE group `WHERE c1 K2 c2 ... Kn cn` for a well-formed list. */
  function Encode(cs: seq<Condition>): (items: seq<Token>)
    ensures |items| == 2 * |cs|
  {
    seq(2 * |cs|, j requires 0 <= j < 2 * |cs| =>
      if j == 0 then Keyword(Plain, "WHERE")
      else if j % 2 == 1 then ComparisonOf(cs[j / 2])
      else Keyword(Plain, KeywordOf(cs[j / 2].connective)))
  }

  /** Round trip: extracting from the WHERE group written for a condition
      list gives that list back, whatever follows the group's last
      comparison, provided it is not AND/OR. */
  lemma ExtractEncoded(cs: seq<Condition>, after: seq<Token>)
    requires WellFormed(cs)
    requires |after| == 0 || !IsConnective(after[0])
    ensures WhereConditions(Encode(cs) + after) == Success(cs)
  {
    KeywordWords();
    var n := |cs|;
    var items := Encode(cs) + after;
    forall k | 0 <= k < n
      ensures ComparisonAt(items, k) == ComparisonOf(cs[k])
      ensures k >= 1 ==> ConnectiveAt(items, k) == Keyword(Plain, KeywordOf(cs[k].connective))
    {
      EncodedAt(cs, after, k);
    }
    assert 2 * n < |items| ==> items[2 * n] == after[0];
    assert Alternation(items, n);
    WhereConditionsComplete(items, n);
    forall k | 0 <= k < n
      ensures Readings(items, n)[k] == cs[k]
    {
      if k >= 1 { ConnectiveFlag(ConnectiveAt(items, k)); }
    }
    assert Readings(items, n) == cs;
  }

  /** The k-th comparison and connective of an encoded group. */
  lemma EncodedAt(cs: seq<Condition>, after: seq<Token>, k: nat)
    requires k < |cs|
    ensures ComparisonAt(Encode(cs) + after, k) == ComparisonOf(cs[k])
    ensures k >= 1 ==> ConnectiveAt(Encode(cs) + after, k) == Keyword(Plain, KeywordOf(cs[k].connective))
  {
    var items := Encode(cs) + after;
    assert (2 * k + 1) / 2 == k && (2 * k + 1) % 2 == 1;
    assert items[2 * k + 1] == Encode(cs)[2 * k + 1];
    if k >= 1 {
      assert (2 * k) / 2 == k && (2 * k) % 2 == 0;
      assert items[2 * k] == Encode(cs)[2 * k];
    }
  }

  // ---------------------------------------------------------------------
  // Rendering

  /** The `-printf` placeholders of the listed attributes, in order; the
      first attribute missing from ATTRS is an error. */
  function Placeholders(names: seq<string>): (r: Result<seq<string>, Error>)
    ensures r.Success? <==> forall i :: 0 <= i < |names| ==> names[i] in ATTRS
    ensures r.Success? ==> |r.value| == |names| && forall i :: 0 <= i < |names| ==> r.value[i] == ATTRS[names[i]]
    ensures r.Failure? ==> exists i :: 0 <= i < |names| && names[i] !in ATTRS && r.error == UnknownAttribute(names[i]) &&
                                     forall j :: 0 <= j < i ==> names[j] in ATTRS
    decreases |names|
  {
    if |names| == 0 then Success([])
    else if names[0] !in ATTRS then Failure(UnknownAttribute(names[0]))
    else
      var rest :- Placeholders(names[1..]);
      Success([ATTRS[names[0]]] + rest)
  }

  /** The action of a SELECT: a long listing for `*`, otherwise a `-printf`
      directive over the comma-separated attribute text. */
  function ActionFor(proj: Token): Result<string, Error> {
    if proj.Wildcard? then Success("-ls")
    else
      var ps :- Placeholders(Split(Text(proj), ','));
      Success("-printf '" + Join("\\t", ps) + "\\n'")
  }

  /** A wildcard projection lists every match. */
  lemma WildcardAction()
    ensures ActionFor(Wildcard) == Success("-ls")
  {
  }

  /** No attribute name contains a comma. */
  lemma AttributeNamesPlain()
    ensures forall name :: name in ATTRS ==> ',' !in name
  {
    assert ATTRS.Keys == {"name", "sz", "perm"};
    assert ',' !in "name" && ',' !in "sz" && ',' !in "perm";
  }

  /** An attribute list `a1,a2,...,an` of known names prints their
      placeholders separated by tabs, in the listed order, then a newline. */
  lemma PrintfAction(names: seq<string>)
    requires |names| >= 1
    requires forall i :: 0 <= i < |names| ==> names[i] in ATTRS
    ensures ActionFor(IdentList(Join(",", names))) ==
            Success("-printf '" + Join("\\t", seq(|names|, i requires 0 <= i < |names| => ATTRS[names[i]])) + "\\n'")
  {
    SplitAttributeList(names);
    KnownPlaceholders(names);
  }

  lemma KnownPlaceholders(names: seq<string>)
    requires forall i :: 0 <= i < |names| ==> names[i] in ATTRS
    ensures Placeholders(names) == Success(seq(|names|, i requires 0 <= i < |names| => ATTRS[names[i]]))
  {
    var ps := Placeholders(names).value;
    assert ps == seq(|names|, i requires 0 <= i < |names| => ATTRS[names[i]]);
  }

  /** Splitting a comma-joined list of known attribute names at its commas
      gives the names back. */
  lemma SplitAttributeList(names: seq<string>)
    requires |names| >= 1
    requires forall i :: 0 <= i < |names| ==> names[i] in ATTRS
    ensures Split(Join(",", names), ',') == names
  {
    AttributeNamesPlain();
    forall i | 0 <= i < |names|
      ensures ',' !in names[i]
    {
    }
    SplitJoin(names, ',');
    assert [','] == ",";
  }

  /** A piece of the attribute text that is not a key of ATTRS, exactly as
      written (no trimming, no case folding), gives an error and no action. */
  lemma UnknownAttributeFails(proj: Token)
    requires !proj.Wildcard?
    requires exists i :: 0 <= i < |Split(Text(proj), ',')| && Split(Text(proj), ',')[i] !in ATTRS
    ensures ActionFor(proj).Failure? && ActionFor(proj).error.UnknownAttribute?
    ensures ActionFor(proj).error.name !in ATTRS
  {
  }

  /** The size template `-size {}{}c` puts modifier and value side by side. */
  lemma SizeTemplate(modifier: string, value: string)
    ensures Fields("-size {}{}c") == 2
    ensures Format("-size {}{}c", [modifier, value]) == Some("-size " + modifier + value + "c")
  {
    var tail := "{}" + ("{}" + "c");
    assert "-size {}{}c" == "-size " + tail;
    PlainText("c", []);
    FieldThen("c", value, []);
    assert [value] + [] == [value];
    FieldThen("{}" + "c", modifier, [value]);
    assert [modifier] + [value] == [modifier, value];
    FieldsLiteralPrefix("-size ", tail);
    FormatLiteralPrefix("-size ", tail, [modifier, value]);
    assert "-size " + (modifier + (value + "c")) == "-size " + modifier + value + "c";
  }

  /** The permission template `-perm {}` has one field: a second argument
      is ignored. */
  lemma PermTemplate(modifier: string, value: string)
    ensures Fields("-perm {}") == 1
    ensures Format("-perm {}", [modifier, value]) == Some("-perm " + modifier)
  {
    assert "-perm {}" == "-perm " + ("{}" + "");
    PlainText("", []);
    FieldThen("", modifier, [value]);
    assert [modifier] + [value] == [modifier, value];
    FieldsLiteralPrefix("-perm ", "{}" + "");
    FormatLiteralPrefix("-perm ", "{}" + "", [modifier, value]);
    assert "-perm " + (modifier + "") == "-perm " + modifier;
  }

  /** Every template in CONDITIONS fits the two arguments it is given. */
  lemma TemplatesFit()
    ensures forall key :: key in CONDITIONS ==> Fields(CONDITIONS[key]) <= 2
  {
    var tail := "{}" + ("{}" + "c");
    assert "-size {}{}c" == "-size " + tail;
    FieldsLiteralPrefix("-size ", tail);
    assert "-perm {}" == "-perm " + ("{}" + "");
    FieldsLiteralPrefix("-perm ", "{}" + "");
    FieldsLiteralPrefix("c", "");
    assert "c" + "" == "c";
  }

  /** `"find {} {} {}".format(path, tests, action)`. */
  lemma CommandFormat(path: string, tests: string, action: string)
    ensures Fields("find {} {} {}") == 3
    ensures Format("find {} {} {}", [path, tests, action]) == Some("find " + path + " " + tests + " " + action)
  {
    assert "find {} {} {}" == "find " + ("{}" + (" " + ("{}" + (" " + ("{}" + "")))));
    assert '{' !in "find " && '{' !in " ";
    ThreeFields("find ", " ", " ", path, tests, action);
  }

  /** A template of three fields, each after a literal, takes three arguments in order. */
  lemma ThreeFields(a: string, b: string, c: string, x: string, y: string, z: string)
    requires '{' !in a && '{' !in b && '{' !in c
    ensures Fields(a + ("{}" + (b + ("{}" + (c + ("{}" + "")))))) == 3
    ensures Format(a + ("{}" + (b + ("{}" + (c + ("{}" + ""))))), [x, y, z]) == Some(a + x + b + y + c + z)
  {
    TwoFields(b, c, y, z);
    FieldAfterLiteral(a, b + ("{}" + (c + ("{}" + ""))), x, [y, z]);
    assert [x] + [y, z] == [x, y, z];
    assert a + (x + (b + (y + (c + z)))) == a + x + b + y + c + z;
  }

  /** The last two fields of such a template. */
  lemma TwoFields(b: string, c: string, y: string, z: string)
    requires '{' !in b && '{' !in c
    ensures Fields(b + ("{}" + (c + ("{}" + "")))) == 2
    ensures Format(b + ("{}" + (c + ("{}" + ""))), [y, z]) == Some(b + (y + (c + z)))
  {
    LastField(c, z);
    FieldAfterLiteral(b, c + ("{}" + ""), y, [z]);
    assert [y] + [z] == [y, z];
  }

  /** The last field of such a template. */
  lemma LastField(c: string, z: string)
    requires '{' !in c
    ensures Fields(c + ("{}" + "")) == 1
    ensures Format(c + ("{}" + ""), [z]) == Some(c + z)
  {
    PlainText("", []);
    FieldAfterLiteral(c, "", z, []);
    assert [z] + [] == [z] && z + "" == z;
  }

  /** One condition of the filter expression:
      `connective + ' ' + CONDITIONS[field.lower()].format(COMPARISON[comp], value)`.
      The field is looked up before the comparator. */
  function RenderCondition(c: Condition): (r: Result<string, Error>)
    ensures r.Success? <==> Lower(c.field) in CONDITIONS && c.comparator in COMPARISON
    ensures Lower(c.field) !in CONDITIONS ==> r == Failure(UnknownField(c.field))
    ensures Lower(c.field) in CONDITIONS && c.comparator !in COMPARISON ==> r == Failure(UnsupportedComparator(c.comparator))
  {
    var key := Lower(c.field);
    if key !in CONDITIONS then Failure(UnknownField(c.field))
    else if c.comparator !in COMPARISON then Failure(UnsupportedComparator(c.comparator))
    else
      TemplatesFit();
      Success(c.connective + " " + Format(CONDITIONS[key], [COMPARISON[c.comparator], c.value]).value)
  }

  /** The filter of a known field: the connective, a space, and the
      field's template filled with the comparator's modifier and the value. */
  lemma RenderKnown(c: Condition)
    requires Lower(c.field) in CONDITIONS && c.comparator in COMPARISON
    ensures Format(CONDITIONS[Lower(c.field)], [COMPARISON[c.comparator], c.value]).Some?
    ensures RenderCondition(c) ==
            Success(c.connective + " " + Format(CONDITIONS[Lower(c.field)], [COMPARISON[c.comparator], c.value]).value)
  {
    TemplatesFit();
  }

  lemma SizeFilterText(connective: string, modifier: string, value: string)
    ensures connective + " " + ("-size " + modifier + value + "c") == connective + " -size " + modifier + value + "c"
  {
    var x := "-size " + modifier;
    assert " " + "-size " == " -size ";
    assert connective + " " + (x + value + "c") == connective + (" " + "-size ") + modifier + value + "c";
  }

  /** A size condition becomes `-size <modifier><value>c`. */
  lemma SizeFilter(c: Condition)
    requires Lower(c.field) == "sz" && c.comparator in COMPARISON
    ensures RenderCondition(c) == Success(c.connective + " -size " + COMPARISON[c.comparator] + c.value + "c")
  {
    var m := COMPARISON[c.comparator];
    RenderKnown(c);
    assert CONDITIONS[Lower(c.field)] == "-size {}{}c";
    SizeTemplate(m, c.value);
    SizeFilterText(c.connective, m, c.value);
  }

  lemma PermFilterText(connective: string, modifier: string)
    ensures connective + " " + ("-perm " + modifier) == connective + " -perm " + modifier
  {
    assert " " + "-perm " == " -perm ";
    assert connective + " " + ("-perm " + modifier) == connective + (" " + "-perm ") + modifier;
  }

  /** A permission condition becomes `-perm <modifier>`: the template has
      a single field, so the value is dropped. */
  lemma PermFilter(c: Condition)
    requires Lower(c.field) == "perm" && c.comparator in COMPARISON
    ensures RenderCondition(c) == Success(c.connective + " -perm " + COMPARISON[c.comparator])
  {
    var m := COMPARISON[c.comparator];
    RenderKnown(c);
    assert CONDITIONS[Lower(c.field)] == "-perm {}";
    PermTemplate(m, c.value);
    PermFilterText(c.connective, m);
  }

  /** Two permission conditions that differ only in their value render alike. */
  lemma PermIgnoresValue(c: Condition, value: string)
    requires Lower(c.field) == "perm"
    ensures RenderCondition(c) == RenderCondition(c.(value := value))
  {
    if c.comparator in COMPARISON {
      PermFilter(c);
      PermFilter(c.(value := value));
    }
  }

  /** The filters of all conditions, in order; the first condition that
      cannot be rendered makes the whole list an error. */
  function RenderConditions(cs: seq<Condition>): (r: Result<seq<string>, Error>)
    ensures r.Success? <==> forall i :: 0 <= i < |cs| ==> RenderCondition(cs[i]).Success?
    ensures r.Success? ==> |r.value| == |cs| &&
                           forall i :: 0 <= i < |cs| ==> r.value[i] == RenderCondition(cs[i]).value
    decreases |cs|
  {
    if |cs| == 0 then Success([])
    else
      var f :- RenderCondition(cs[0]);
      var rest :- RenderConditions(cs[1..]);
      assert forall i :: 1 <= i < |cs| ==> cs[1..][i - 1] == cs[i];
      Success([f] + rest)
  }

  /** A failed rendering reports the error of the first condition that
      cannot be rendered; every condition before it renders. */
  lemma {:induction false} RenderConditionsFirstError(cs: seq<Condition>)
    ensures RenderConditions(cs).Failure? ==>
              exists i :: 0 <= i < |cs| && RenderCondition(cs[i]) == Failure(RenderConditions(cs).error) &&
                          forall j :: 0 <= j < i ==> RenderCondition(cs[j]).Success?
    decreases |cs|
  {
    if |cs| > 0 && RenderConditions(cs).Failure? {
      if RenderCondition(cs[0]).Failure? {
        assert RenderCondition(cs[0]) == Failure(RenderConditions(cs).error);
      } else {
        var tail := cs[1..];
        assert RenderConditions(tail).Failure?;
        RenderConditionsFirstError(tail);
        var e := RenderConditions(tail).error;
        var i :| 0 <= i < |tail| && RenderCondition(tail[i]) == Failure(e) &&
                 forall j :: 0 <= j < i ==> RenderCondition(tail[j]).Success?;
        FirstErrorShift(cs, i, e);
        assert RenderConditions(cs).error == e;
      }
    }
  }

  /** The first failure of the tail, moved one place along. */
  lemma FirstErrorShift(cs: seq<Condition>, i: nat, e: Error)
    requires |cs| > 0 && RenderCondition(cs[0]).Success?
    requires i < |cs| - 1 && RenderCondition(cs[1..][i]) == Failure(e)
    requires forall j :: 0 <= j < i ==> RenderCondition(cs[1..][j]).Success?
    ensures RenderCondition(cs[i + 1]) == Failure(e)
    ensures forall j :: 0 <= j < i + 1 ==> RenderCondition(cs[j]).Success?
  {
    assert cs[i + 1] == cs[1..][i];
    forall j | 0 <= j < i + 1
      ensures RenderCondition(cs[j]).Success?
    {
      if j > 0 {
        assert cs[j] == cs[1..][j - 1];
      }
    }
  }

  /** The filters are produced front to back: the first condition's filter
      (or error) comes before anything from the rest. */
  lemma RenderConditionsCons(c: Condition, cs: seq<Condition>)
    ensures RenderConditions([c] + cs) ==
            match RenderCondition(c)
            case Failure(e) => Failure(e)
            case Success(f) =>
              match RenderConditions(cs)
              case Failure(e) => Failure(e)
              case Success(fs) => Success([f] + fs)
  {
    assert ([c] + cs)[0] == c;
    assert ([c] + cs)[1..] == cs;
  }

  // ---------------------------------------------------------------------
  // Statement translation

  /** The conditions of the statement's first WHERE group; none without one. */
  function StatementConditions(stmt: seq<Token>): Result<seq<Condition>, Error> {
    var where := FindFirst(stmt, WherePattern, 0);
    if where.None? then Success([]) else WhereConditions(stmt[where.value].items)
  }

  /** `stmt.token_next(stmt.token_index(stmt.token_next_match(0, cls, word)))`:
      the position of the token after the first `word` keyword of class
      `cls`. A missing keyword (`token_index(None)`) and a keyword with
      nothing after it (using the `None` that follows) are errors. */
  function NextAfterKeyword(stmt: seq<Token>, cls: KeywordClass, word: string): (r: Result<nat, Error>)
    ensures r.Success? ==> 0 < r.value < |stmt| && Matches(stmt[r.value - 1], KeywordPattern(cls, word))
    ensures FindFirst(stmt, KeywordPattern(cls, word), 0).None? ==> r == Failure(MissingKeyword(word))
    ensures FindFirst(stmt, KeywordPattern(cls, word), 0).Some? ==>
              var i := FindFirst(stmt, KeywordPattern(cls, word), 0).value;
              if i + 1 < |stmt| then r == Success(i + 1) else r == Failure(MissingToken(word))
  {
    var found := FindFirst(stmt, KeywordPattern(cls, word), 0);
    if found.None? then Failure(MissingKeyword(word))
    else
      match TokenNext(stmt, found.value)
      case None => Failure(MissingToken(word))
      case Some(next) => Success(next)
  }

  /** A keyword that is found and followed by a token yields that token's position. */
  lemma KeywordFollowed(stmt: seq<Token>, cls: KeywordClass, word: string, i: nat)
    requires FindFirst(stmt, KeywordPattern(cls, word), 0) == Some(i) && i + 1 < |stmt|
    ensures NextAfterKeyword(stmt, cls, word) == Success(i + 1)
  {
  }

  /** `_t_select`: `find <path> <tests> <action>`. */
  function Select(stmt: seq<Token>): Result<string, Error> {
    var attrs :- NextAfterKeyword(stmt, Dml, "SELECT");
    var action :- ActionFor(stmt[attrs]);
    var path :- NextAfterKeyword(stmt, Plain, "FROM");
    var conds :- StatementConditions(stmt);
    var filters :- RenderConditions(conds);
    Success(FindCommand(Text(stmt[path]), Join(" ", filters), action))
  }

  /** `"find {} {} {}".format(path, tests, action)`: the three parts in
      order, each preceded by one space. */
  function FindCommand(path: string, tests: string, action: string): (r: string)
    ensures r == "find " + path + " " + tests + " " + action
  {
    CommandFormat(path, tests, action);
    Format("find {} {} {}", [path, tests, action]).value
  }

  /** The translation rules, keyed by statement type. */
  datatype Translator = SelectTranslator

  const TRANSLATORS: map<string, Translator> := map["SELECT" := SelectTranslator]

  function Apply(t: Translator, stmt: seq<Token>): Result<string, Error> {
    match t
    case SelectTranslator => Select(stmt)
  }

  /** `translate`: the rule registered for the statement's type. */
  function Translate(stmt: seq<Token>): Result<string, Error> {
    var kind := StatementType(stmt);
    if kind !in TRANSLATORS then Failure(UnsupportedStatement(kind))
    else Apply(TRANSLATORS[kind], stmt)
  }

  // ---------------------------------------------------------------------
  // Properties of statement translation

  /** Extraction only ever fails for want of a comparison. */
  lemma {:induction false} ChainErrors(rest: seq<Token>)
    ensures Chain(rest).Failure? ==> Chain(rest).error == MalformedCondition
    decreases |rest|
  {
    if |rest| >= 2 && IsConnective(rest[0]) && rest[1].Comparison? {
      ChainErrors(rest[2..]);
    }
  }

  /** The SELECT rule never reports an unsupported statement: that error
      belongs to the dispatcher alone. */
  lemma SelectErrors(stmt: seq<Token>)
    ensures Select(stmt).Failure? ==> !Select(stmt).error.UnsupportedStatement?
  {
    var conds := StatementConditions(stmt);
    if conds.Success? {
      RenderConditionsFirstError(conds.value);
    }
    var w := FindFirst(stmt, WherePattern, 0);
    if w.Some? {
      var items := stmt[w.value].items;
      if |items| >= 2 && items[1].Comparison? {
        ChainErrors(items[2..]);
      }
    }
  }

  /** Only SELECT statements are translated; every other statement type is an
      error, and the SELECT rule's own errors are never mistaken for it. */
  lemma TranslateDispatch(stmt: seq<Token>)
    ensures StatementType(stmt) == "SELECT" ==> Translate(stmt) == Select(stmt)
    ensures Translate(stmt).Failure? && Translate(stmt).error.UnsupportedStatement? <==>
            StatementType(stmt) != "SELECT"
    ensures StatementType(stmt) != "SELECT" ==> Translate(stmt) == Failure(UnsupportedStatement(StatementType(stmt)))
  {
    SelectErrors(stmt);
  }

  /** The SELECT rule looks up its clauses in source order: the token after
      SELECT, then the action built from it, then the token after FROM. The
      first of these that fails is the rule's error; a missing keyword and a
      keyword with nothing after it are told apart by their errors. */
  lemma SelectLookupOrder(stmt: seq<Token>)
    ensures NextAfterKeyword(stmt, Dml, "SELECT").Failure? ==>
              Select(stmt) == Failure(NextAfterKeyword(stmt, Dml, "SELECT").error)
    ensures NextAfterKeyword(stmt, Dml, "SELECT").Success? ==>
              var action := ActionFor(stmt[NextAfterKeyword(stmt, Dml, "SELECT").value]);
              && (action.Failure? ==> Select(stmt) == Failure(action.error))
              && (action.Success? && NextAfterKeyword(stmt, Plain, "FROM").Failure? ==>
                    Select(stmt) == Failure(NextAfterKeyword(stmt, Plain, "FROM").error))
  {
  }

  /** `SELECT <proj> FROM <path>` as top-level tokens, optionally followed
      by a WHERE group. */
  function SelectStatement(sel: string, proj: Token, from: string, path: Token, where: seq<Token>): seq<Token> {
    [Keyword(Dml, sel), proj, Keyword(Plain, from), path] + where
  }

  /** Where the SELECT rule finds its keywords in such a statement. */
  lemma SelectLayout(sel: string, proj: Token, from: string, path: Token, where: seq<Token>)
    requires Upper(sel) == "SELECT" && Upper(from) == "FROM"
    requires proj.Wildcard? || proj.IdentList?
    requires !path.Where?
    ensures FindFirst(SelectStatement(sel, proj, from, path, where), KeywordPattern(Dml, "SELECT"), 0) == Some(0)
    ensures FindFirst(SelectStatement(sel, proj, from, path, where), KeywordPattern(Plain, "FROM"), 0) == Some(2)
    ensures where == [] ==> FindFirst(SelectStatement(sel, proj, from, path, where), WherePattern, 0).None?
    ensures |where| > 0 && where[0].Where? ==>
              FindFirst(SelectStatement(sel, proj, from, path, where), WherePattern, 0) == Some(4)
    ensures StatementType(SelectStatement(sel, proj, from, path, where)) == "SELECT"
  {
    KeywordWords();
    var stmt := SelectStatement(sel, proj, from, path, where);
    var fromWord := KeywordPattern(Plain, "FROM");
    assert Matches(stmt[2], fromWord);
    assert FindFirst(stmt, fromWord, 1) == Some(2);
    if where == [] {
      assert FindFirst(stmt, WherePattern, 4).None?;
      assert FindFirst(stmt, WherePattern, 3).None?;
      assert FindFirst(stmt, WherePattern, 2).None?;
      assert FindFirst(stmt, WherePattern, 1).None?;
    } else if where[0].Where? {
      assert FindFirst(stmt, WherePattern, 4) == Some(4);
      assert FindFirst(stmt, WherePattern, 3) == Some(4);
      assert FindFirst(stmt, WherePattern, 2) == Some(4);
      assert FindFirst(stmt, WherePattern, 1) == Some(4);
    }
  }

  /** The conditions rendered one by one, in order, when every one renders. */
  ghost function Rendered(cs: seq<Condition>): (fs: seq<string>)
    requires forall i :: 0 <= i < |cs| ==> RenderCondition(cs[i]).Success?
    ensures |fs| == |cs|
  {
    seq(|cs|, i requires 0 <= i < |cs| => RenderCondition(cs[i]).value)
  }

  /** A successful rendering is the conditions rendered one by one. */
  lemma RenderedFilters(cs: seq<Condition>)
    requires RenderConditions(cs).Success?
    ensures forall i :: 0 <= i < |cs| ==> RenderCondition(cs[i]).Success?
    ensures RenderConditions(cs).value == Rendered(cs)
  {
  }

  /** `Select` unfolded once, given the positions the two keyword lookups yield. */
  lemma SelectSteps(stmt: seq<Token>, attrs: nat, path: nat)
    requires attrs < |stmt| && path < |stmt|
    requires NextAfterKeyword(stmt, Dml, "SELECT") == Success(attrs)
    requires NextAfterKeyword(stmt, Plain, "FROM") == Success(path)
    ensures Select(stmt) ==
            match ActionFor(stmt[attrs])
            case Failure(e) => Failure(e)
            case Success(action) =>
              match StatementConditions(stmt)
              case Failure(e) => Failure(e)
              case Success(conds) =>
                match RenderConditions(conds)
                case Failure(e) => Failure(e)
                case Success(filters) => Success(FindCommand(Text(stmt[path]), Join(" ", filters), action))
  {
  }

  /** Once SELECT and FROM are found with a token after each (at positions
      `attrs` and `path`), a command results exactly when the action, the
      WHERE conditions and every condition's filter can all be produced. It
      is then `find <path> <tests> <action>`, the tests being the filters of
      the conditions, in order, joined by single spaces. Otherwise the
      result is the first error met, in that order. */
  lemma SelectCommand(stmt: seq<Token>, attrs: nat, path: nat)
    requires attrs < |stmt| && path < |stmt|
    requires NextAfterKeyword(stmt, Dml, "SELECT") == Success(attrs)
    requires NextAfterKeyword(stmt, Plain, "FROM") == Success(path)
    ensures Select(stmt).Success? <==>
              ActionFor(stmt[attrs]).Success? && StatementConditions(stmt).Success? &&
              forall i :: 0 <= i < |StatementConditions(stmt).value| ==>
                RenderCondition(StatementConditions(stmt).value[i]).Success?
    ensures Select(stmt).Success? ==>
              Select(stmt).value == "find " + Text(stmt[path]) + " " + Join(" ", Rendered(StatementConditions(stmt).value))
                                    + " " + ActionFor(stmt[attrs]).value
    ensures ActionFor(stmt[attrs]).Failure? ==> Select(stmt) == Failure(ActionFor(stmt[attrs]).error)
    ensures ActionFor(stmt[attrs]).Success? && StatementConditions(stmt).Failure? ==>
              Select(stmt) == Failure(StatementConditions(stmt).error)
    ensures ActionFor(stmt[attrs]).Success? && StatementConditions(stmt).Success? &&
            RenderConditions(StatementConditions(stmt).value).Failure? ==>
              Select(stmt) == Failure(RenderConditions(StatementConditions(stmt).value).error)
  {
    SelectSteps(stmt, attrs, path);
    var action := ActionFor(stmt[attrs]);
    var conds := StatementConditions(stmt);
    if action.Success? && conds.Success? && RenderConditions(conds.value).Success? {
      RenderedFilters(conds.value);
    }
  }

  /** With no WHERE group anywhere in the statement there are no conditions
      and the tests are empty: the command is `find <path>  <action>`
      (two spaces), or the action's error. */
  lemma SelectNoWhere(stmt: seq<Token>, attrs: nat, path: nat)
    requires attrs < |stmt| && path < |stmt|
    requires NextAfterKeyword(stmt, Dml, "SELECT") == Success(attrs)
    requires NextAfterKeyword(stmt, Plain, "FROM") == Success(path)
    requires FindFirst(stmt, WherePattern, 0).None?
    ensures Select(stmt) ==
            match ActionFor(stmt[attrs])
            case Success(action) => Success("find " + Text(stmt[path]) + "  " + action)
            case Failure(e) => Failure(e)
  {
    SelectSteps(stmt, attrs, path);
    assert StatementConditions(stmt) == Success([]);
    assert RenderConditions([]) == Success([]);
    if ActionFor(stmt[attrs]).Success? {
      EmptyTests(Text(stmt[path]), ActionFor(stmt[attrs]).value);
    }
  }

  /** `SELECT <proj> FROM <path>`, keywords in any case. */
  lemma SelectWithoutWhere(sel: string, proj: Token, from: string, path: Token)
    requires Upper(sel) == "SELECT" && Upper(from) == "FROM"
    requires proj.Wildcard? || proj.IdentList?
    requires !path.Where?
    ensures Translate(SelectStatement(sel, proj, from, path, [])) ==
            match ActionFor(proj)
            case Success(action) => Success("find " + Text(path) + "  " + action)
            case Failure(e) => Failure(e)
  {
    var stmt := SelectStatement(sel, proj, from, path, []);
    SelectLayout(sel, proj, from, path, []);
    TranslateDispatch(stmt);
    KeywordFollowed(stmt, Dml, "SELECT", 0);
    KeywordFollowed(stmt, Plain, "FROM", 2);
    SelectNoWhere(stmt, 1, 3);
  }

  /** An empty test list leaves two spaces between path and action. */
  lemma EmptyTests(path: string, action: string)
    ensures FindCommand(path, Join(" ", []), action) == "find " + path + "  " + action
  {
    var x := "find " + path + " ";
    assert Join(" ", []) == "";
    assert x + "" == x;
    assert " " + " " == "  ";
    assert x + " " == "find " + path + "  ";
  }

  /** With a WHERE group, the command is `find <path> <tests> <action>`
      where the tests are the conditions extracted from the group, rendered
      and joined by single spaces; an unknown attribute, a malformed group,
      or an unknown field or comparator gives an error and no command. */
  lemma SelectWithWhere(sel: string, proj: Token, from: string, path: Token, items: seq<Token>)
    requires Upper(sel) == "SELECT" && Upper(from) == "FROM"
    requires proj.Wildcard? || proj.IdentList?
    requires !path.Where?
    ensures Translate(SelectStatement(sel, proj, from, path, [Where(items)])) ==
            match ActionFor(proj)
            case Failure(e) => Failure(e)
            case Success(action) =>
              match WhereConditions(items)
              case Failure(e) => Failure(e)
              case Success(cs) =>
                match RenderConditions(cs)
                case Failure(e) => Failure(e)
                case Success(filters) => Success(FindCommand(Text(path), Join(" ", filters), action))
  {
    var stmt := SelectStatement(sel, proj, from, path, [Where(items)]);
    SelectLayout(sel, proj, from, path, [Where(items)]);
    TranslateDispatch(stmt);
    assert stmt[1] == proj && stmt[3] == path && stmt[4] == Where(items);
    KeywordFollowed(stmt, Dml, "SELECT", 0);
    KeywordFollowed(stmt, Plain, "FROM", 2);
    SelectSteps(stmt, 1, 3);
  }
}
