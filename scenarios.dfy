/** Worked examples: whole statements and the commands (or errors) the
    translator gives for them. */
module Scenarios {
  import opened Wrappers
  import opened PyText
  import opened SqlTokens
  import opened Translators

  /** The keyword and field spellings the examples use, in their normalised forms. */
  lemma Words()
    ensures Upper("select") == "SELECT" && Upper("from") == "FROM"
    ensures Upper("SELECT") == "SELECT" && Upper("FROM") == "FROM"
    ensures Upper("DELETE") == "DELETE"
    ensures Lower("sz") == "sz" && Lower("SZ") == "sz" && Lower("perm") == "perm" && Lower("name") == "name"
  {
    KeywordWords();
    assert Upper("select") == "SELECT" by { assert forall i :: 0 <= i < 6 ==> Upper("select")[i] == "SELECT"[i]; }
    assert Upper("from") == "FROM" by { assert forall i :: 0 <= i < 4 ==> Upper("from")[i] == "FROM"[i]; }
    assert Upper("DELETE") == "DELETE" by { assert forall i :: 0 <= i < 6 ==> Upper("DELETE")[i] == "DELETE"[i]; }
    assert Lower("sz") == "sz" by { assert forall i :: 0 <= i < 2 ==> Lower("sz")[i] == "sz"[i]; }
    assert Lower("SZ") == "sz" by { assert forall i :: 0 <= i < 2 ==> Lower("SZ")[i] == "sz"[i]; }
    assert Lower("perm") == "perm" by { assert forall i :: 0 <= i < 4 ==> Lower("perm")[i] == "perm"[i]; }
    assert Lower("name") == "name" by { assert forall i :: 0 <= i < 4 ==> Lower("name")[i] == "name"[i]; }
  }

  /** The attribute list `name,sz` prints the path and the size, tab-separated. */
  lemma NameSizeAction()
    ensures ActionFor(IdentList("name,sz")) == Success("-printf '%p\\t%s\\n'")
  {
    var names := ["name", "sz"];
    assert Join(",", names) == "name,sz" by { assert names[1..] == ["sz"]; }
    PrintfAction(names);
    var placeholders := seq(2, i requires 0 <= i < 2 => ATTRS[names[i]]);
    assert placeholders == ["%p", "%s"];
    assert Join("\\t", placeholders) == "%p\\t%s" by { assert placeholders[1..] == ["%s"]; }
    assert "-printf '" + "%p\\t%s" + "\\n'" == "-printf '%p\\t%s\\n'";
  }

  /** The single condition `sz > n` is the test "more than n bytes". */
  lemma LargerThan(n: string)
    ensures RenderConditions([Condition("", "sz", ">", n)]) == Success([" -size +" + n + "c"])
  {
    Words();
    var c := Condition("", "sz", ">", n);
    SizeFilter(c);
    assert COMPARISON[">"] == "+";
    var a := "" + " -size ";
    assert a + "+" == " -size +";
    RenderConditionsCons(c, []);
    assert [c] + [] == [c];
    assert [" -size +" + n + "c"] + [] == [" -size +" + n + "c"];
  }

  /** One test is the whole test text. */
  lemma OneTestText(path: string, test: string, action: string)
    ensures FindCommand(path, Join(" ", [test]), action) == "find " + path + " " + test + " " + action
  {
  }

  /** The command text of the size example, spelled out. */
  lemma SizeCommandText(path: string, n: string)
    ensures "find " + path + " " + (" -size +" + n + "c") + " " + "-printf '%p\\t%s\\n'"
         == "find " + path + "  -size +" + n + "c -printf '%p\\t%s\\n'"
  {
    var p := "find " + path;
    var a := " " + " -size +";
    assert a == "  -size +";
    var b := "c" + " " + "-printf '%p\\t%s\\n'";
    assert b == "c -printf '%p\\t%s\\n'";
    assert p + " " + (" -size +" + n + "c") + " " + "-printf '%p\\t%s\\n'" == p + a + n + b;
  }

  /** The size example's command, from its parts. */
  lemma SizeCommand(path: string, n: string)
    ensures FindCommand(Text(IdentList(path)), Join(" ", [" -size +" + n + "c"]), "-printf '%p\\t%s\\n'")
         == "find " + path + "  -size +" + n + "c -printf '%p\\t%s\\n'"
  {
    OneTestText(path, " -size +" + n + "c", "-printf '%p\\t%s\\n'");
    SizeCommandText(path, n);
  }

  /** A WHERE group holding a single comparison. */
  lemma OneCondition(field: string, comparator: string, value: string)
    ensures WhereConditions([Keyword(Plain, "WHERE"), Comparison(field, comparator, value)])
         == Success([Condition("", field, comparator, value)])
  {
    var cs := [Condition("", field, comparator, value)];
    var e := Encode(cs);
    assert e[0] == Keyword(Plain, "WHERE");
    assert e[1] == Comparison(field, comparator, value);
    assert e + [] == [Keyword(Plain, "WHERE"), Comparison(field, comparator, value)];
    assert WellFormed(cs);
    ExtractEncoded(cs, []);
  }

  /** `select name,sz from <path> WHERE sz><n>`: keywords match in any case;
      the test is "more than n bytes" and the action prints path and size
      separated by a tab. */
  lemma SizeScenario(path: string, n: string)
    ensures Translate(SelectStatement("select", IdentList("name,sz"), "from", IdentList(path),
                                      [Where([Keyword(Plain, "WHERE"), Comparison("sz", ">", n)])]))
            == Success("find " + path + "  -size +" + n + "c -printf '%p\\t%s\\n'")
  {
    Words();
    OneCondition("sz", ">", n);
    SelectWithWhere("select", IdentList("name,sz"), "from", IdentList(path),
                    [Keyword(Plain, "WHERE"), Comparison("sz", ">", n)]);
    NameSizeAction();
    LargerThan(n);
    SizeCommand(path, n);
  }

  /** In a two-attribute list whose second name is unknown, that name is the error. */
  lemma TwoAttributes(a: string, b: string)
    requires a in ATTRS && b !in ATTRS && ',' !in a && ',' !in b
    ensures ActionFor(IdentList(a + "," + b)) == Failure(UnknownAttribute(b))
  {
    var names := [a, b];
    assert [','] == ",";
    assert Join(",", names) == a + "," + b by { assert names[1..] == [b]; }
    SplitJoin(names, ',');
    assert names[1..] == [b];
  }

  /** The list `name, sz` splits into "name" and " sz", and " sz" is unknown. */
  lemma SpacedAction()
    ensures ActionFor(IdentList("name, sz")) == Failure(UnknownAttribute(" sz"))
  {
    assert "name" + "," + " sz" == "name, sz";
    assert ',' !in "name" && ',' !in " sz";
    assert " sz" !in ATTRS;
    TwoAttributes("name", " sz");
  }

  /** `SELECT name, sz FROM <path>`: attribute names are not trimmed, so the
      second piece " sz" is unknown and there is no command. */
  lemma SpacedAttributesScenario(path: string)
    ensures Translate(SelectStatement("SELECT", IdentList("name, sz"), "FROM", IdentList(path), []))
            == Failure(UnknownAttribute(" sz"))
  {
    Words();
    SelectWithoutWhere("SELECT", IdentList("name, sz"), "FROM", IdentList(path));
    SpacedAction();
  }

  /** A WHERE group holding two comparisons joined by AND. */
  lemma TwoConditions(f1: string, c1: string, v1: string, f2: string, c2: string, v2: string)
    ensures WhereConditions([Keyword(Plain, "WHERE"), Comparison(f1, c1, v1), Keyword(Plain, "AND"), Comparison(f2, c2, v2)])
         == Success([Condition("", f1, c1, v1), Condition("-and", f2, c2, v2)])
  {
    var cs := [Condition("", f1, c1, v1), Condition("-and", f2, c2, v2)];
    var e := Encode(cs);
    assert e[0] == Keyword(Plain, "WHERE");
    assert e[1] == Comparison(f1, c1, v1);
    assert e[2] == Keyword(Plain, "AND");
    assert e[3] == Comparison(f2, c2, v2);
    assert e + [] == [Keyword(Plain, "WHERE"), Comparison(f1, c1, v1), Keyword(Plain, "AND"), Comparison(f2, c2, v2)];
    assert WellFormed(cs);
    ExtractEncoded(cs, []);
  }

  /** `perm = v` gives `-perm` with an empty modifier; v is dropped. */
  lemma PermEqualFilter(v: string)
    ensures RenderCondition(Condition("", "perm", "=", v)) == Success(" -perm ")
  {
    Words();
    PermFilter(Condition("", "perm", "=", v));
    assert COMPARISON["="] == "";
    assert "" + " -perm " + "" == " -perm ";
  }

  /** The text of an AND-joined "less than" size test, spelled out. */
  lemma AndSizeText(n: string)
    ensures "-and" + " -size " + "-" + n + "c" == "-and -size -" + n + "c"
  {
    assert "-and" + " -size " == "-and -size ";
    assert "-and -size " + "-" == "-and -size -";
  }

  /** An AND-joined `sz < n` gives "less than n bytes". */
  lemma AndSmallerFilter(field: string, n: string)
    requires Lower(field) == "sz"
    ensures RenderCondition(Condition("-and", field, "<", n)) == Success("-and -size -" + n + "c")
  {
    assert COMPARISON["<"] == "-";
    SizeFilter(Condition("-and", field, "<", n));
    AndSizeText(n);
  }

  /** The conditions of the permission example render to two tests, in order. */
  lemma PermissionFilters(v: string, n: string)
    ensures RenderConditions([Condition("", "perm", "=", v), Condition("-and", "SZ", "<", n)])
         == Success([" -perm ", "-and -size -" + n + "c"])
  {
    PermEqualFilter(v);
    UpperSizeFilter(n);
    RenderPair(Condition("", "perm", "=", v), Condition("-and", "SZ", "<", n), " -perm ", "-and -size -" + n + "c");
  }

  /** The field name is looked up lower-cased, so `SZ` is the size field. */
  lemma UpperSizeFilter(n: string)
    ensures RenderCondition(Condition("-and", "SZ", "<", n)) == Success("-and -size -" + n + "c")
  {
    Words();
    AndSmallerFilter("SZ", n);
  }

  /** Two conditions that render give their two tests, in order. */
  lemma RenderPair(c0: Condition, c1: Condition, f0: string, f1: string)
    requires RenderCondition(c0) == Success(f0) && RenderCondition(c1) == Success(f1)
    ensures RenderConditions([c0, c1]) == Success([f0, f1])
  {
    RenderConditionsCons(c1, []);
    assert [c1] + [] == [c1];
    RenderConditionsCons(c0, [c1]);
    assert [c0] + [c1] == [c0, c1];
    assert [f1] + [] == [f1];
    assert [f0] + [f1] == [f0, f1];
  }

  /** Two tests are joined by one space. */
  lemma TwoTestText(path: string, t0: string, t1: string, action: string)
    ensures FindCommand(path, Join(" ", [t0, t1]), action) == "find " + path + " " + (t0 + " " + t1) + " " + action
  {
    assert [t0, t1][1..] == [t1];
  }

  /** The command text of the permission example, spelled out. */
  lemma PermissionText(path: string, n: string)
    ensures "find " + path + " " + (" -perm " + " " + ("-and -size -" + n + "c")) + " " + "-ls"
         == "find " + path + "  -perm  -and -size -" + n + "c -ls"
  {
    var p := "find " + path;
    var a := " " + " -perm " + " " + "-and -size -";
    assert a == "  -perm  -and -size -";
    var b := "c" + " " + "-ls";
    assert b == "c -ls";
    assert p + " " + (" -perm " + " " + ("-and -size -" + n + "c")) + " " + "-ls" == p + a + n + b;
  }

  /** The permission example's command, from its parts. */
  lemma PermissionCommand(path: string, n: string)
    ensures FindCommand(Text(IdentList(path)), Join(" ", [" -perm ", "-and -size -" + n + "c"]), "-ls")
         == "find " + path + "  -perm  -and -size -" + n + "c -ls"
  {
    TwoTestText(path, " -perm ", "-and -size -" + n + "c", "-ls");
    PermissionText(path, n);
  }

  /** `SELECT * FROM <path> WHERE perm=<v> AND SZ<<n>`: the permission test
      keeps only its modifier (v does not appear), the field name is looked
      up lower-cased, and the second test carries `-and`. */
  lemma PermissionScenario(path: string, v: string, n: string)
    ensures Translate(SelectStatement("SELECT", Wildcard, "FROM", IdentList(path),
                                      [Where([Keyword(Plain, "WHERE"), Comparison("perm", "=", v),
                                              Keyword(Plain, "AND"), Comparison("SZ", "<", n)])]))
            == Success("find " + path + "  -perm  -and -size -" + n + "c -ls")
  {
    Words();
    TwoConditions("perm", "=", v, "SZ", "<", n);
    SelectWithWhere("SELECT", Wildcard, "FROM", IdentList(path),
                    [Keyword(Plain, "WHERE"), Comparison("perm", "=", v), Keyword(Plain, "AND"), Comparison("SZ", "<", n)]);
    WildcardAction();
    PermissionFilters(v, n);
    PermissionCommand(path, n);
  }

  /** `SELECT * FROM <path> WHERE name=<v>`: `name` has no filter template,
      so the statement fails instead of being translated without the test. */
  lemma UnknownFieldScenario(path: string, v: string)
    ensures Translate(SelectStatement("SELECT", Wildcard, "FROM", IdentList(path),
                                      [Where([Keyword(Plain, "WHERE"), Comparison("name", "=", v)])]))
            == Failure(UnknownField("name"))
  {
    Words();
    var cs := [Condition("", "name", "=", v)];
    OneCondition("name", "=", v);
    SelectWithWhere("SELECT", Wildcard, "FROM", IdentList(path), [Keyword(Plain, "WHERE"), Comparison("name", "=", v)]);
    WildcardAction();
    assert "name" !in CONDITIONS;
    RenderConditionsCons(cs[0], []);
    assert [cs[0]] + [] == cs;
  }

  /** `DELETE FROM <path>`: there is no DELETE rule. */
  lemma DeleteScenario(path: string)
    ensures Translate([Keyword(Dml, "DELETE"), Keyword(Plain, "FROM"), IdentList(path)])
            == Failure(UnsupportedStatement("DELETE"))
  {
    Words();
    TranslateDispatch([Keyword(Dml, "DELETE"), Keyword(Plain, "FROM"), IdentList(path)]);
  }

  /** `SELECT *` has no FROM clause: the missing keyword is the error. */
  lemma MissingFromScenario()
    ensures Translate([Keyword(Dml, "SELECT"), Wildcard]) == Failure(MissingKeyword("FROM"))
  {
    var stmt := [Keyword(Dml, "SELECT"), Wildcard];
    Words();
    TranslateDispatch(stmt);
    assert FindFirst(stmt, KeywordPattern(Dml, "SELECT"), 0) == Some(0);
    assert FindFirst(stmt, KeywordPattern(Plain, "FROM"), 0).None?;
    SelectLookupOrder(stmt);
    WildcardAction();
  }

  /** `SELECT * FROM` has nothing after FROM: there is no path token. */
  lemma MissingPathScenario()
    ensures Translate([Keyword(Dml, "SELECT"), Wildcard, Keyword(Plain, "FROM")]) == Failure(MissingToken("FROM"))
  {
    var stmt := [Keyword(Dml, "SELECT"), Wildcard, Keyword(Plain, "FROM")];
    Words();
    TranslateDispatch(stmt);
    assert FindFirst(stmt, KeywordPattern(Dml, "SELECT"), 0) == Some(0);
    assert FindFirst(stmt, KeywordPattern(Plain, "FROM"), 1) == Some(2);
    assert FindFirst(stmt, KeywordPattern(Plain, "FROM"), 0) == Some(2);
    SelectLookupOrder(stmt);
    WildcardAction();
  }

  /** `SELECT <a>` with `a` unknown: the action is built before FROM is
      looked up, so the unknown attribute is the error. */
  lemma ActionBeforeFromScenario(a: string)
    requires a !in ATTRS && ',' !in a
    ensures Translate([Keyword(Dml, "SELECT"), IdentList(a)]) == Failure(UnknownAttribute(a))
  {
    var stmt := [Keyword(Dml, "SELECT"), IdentList(a)];
    Words();
    TranslateDispatch(stmt);
    assert FindFirst(stmt, KeywordPattern(Dml, "SELECT"), 0) == Some(0);
    SplitJoin([a], ',');
    assert Split(Text(IdentList(a)), ',') == [a];
    SelectLookupOrder(stmt);
  }

  /** A bare `SELECT` has nothing to project. */
  lemma BareSelectScenario()
    ensures Translate([Keyword(Dml, "SELECT")]) == Failure(MissingToken("SELECT"))
  {
    var stmt := [Keyword(Dml, "SELECT")];
    Words();
    TranslateDispatch(stmt);
    assert FindFirst(stmt, KeywordPattern(Dml, "SELECT"), 0) == Some(0);
    SelectLookupOrder(stmt);
  }

  /** `SELECT * FROM <path>`, keywords in any case: an unfiltered long
      listing of the path. */
  lemma WildcardListing(sel: string, from: string, path: string)
    requires Upper(sel) == "SELECT" && Upper(from) == "FROM"
    ensures Translate(SelectStatement(sel, Wildcard, from, IdentList(path), [])) == Success("find " + path + "  -ls")
  {
    SelectWithoutWhere(sel, Wildcard, from, IdentList(path));
    WildcardAction();
    ListingText(path);
  }

  /** `SELECT * FROM <path>;`: a token after the path that is not a WHERE
      group changes nothing. */
  lemma TerminatedListing(path: string)
    ensures Translate([Keyword(Dml, "SELECT"), Wildcard, Keyword(Plain, "FROM"), IdentList(path), IdentList(";")])
            == Success("find " + path + "  -ls")
  {
    var stmt := [Keyword(Dml, "SELECT"), Wildcard, Keyword(Plain, "FROM"), IdentList(path), IdentList(";")];
    TerminatedLayout(path);
    TranslateDispatch(stmt);
    KeywordFollowed(stmt, Dml, "SELECT", 0);
    KeywordFollowed(stmt, Plain, "FROM", 2);
    SelectNoWhere(stmt, 1, 3);
    WildcardAction();
    ListingText(path);
  }

  /** Where the scans find their tokens in `SELECT * FROM <path>;`. */
  lemma TerminatedLayout(path: string)
    ensures var stmt := [Keyword(Dml, "SELECT"), Wildcard, Keyword(Plain, "FROM"), IdentList(path), IdentList(";")];
            && FindFirst(stmt, KeywordPattern(Dml, "SELECT"), 0) == Some(0)
            && FindFirst(stmt, KeywordPattern(Plain, "FROM"), 0) == Some(2)
            && FindFirst(stmt, WherePattern, 0).None?
            && StatementType(stmt) == "SELECT"
  {
    var stmt := [Keyword(Dml, "SELECT"), Wildcard, Keyword(Plain, "FROM"), IdentList(path), IdentList(";")];
    Words();
    assert FindFirst(stmt, KeywordPattern(Plain, "FROM"), 1) == Some(2);
    assert FindFirst(stmt, WherePattern, 5).None?;
    assert FindFirst(stmt, WherePattern, 4).None?;
    assert FindFirst(stmt, WherePattern, 3).None?;
    assert FindFirst(stmt, WherePattern, 2).None?;
    assert FindFirst(stmt, WherePattern, 1).None?;
  }

  /** The command text of a listing, spelled out. */
  lemma ListingText(path: string)
    ensures "find " + Text(IdentList(path)) + "  " + "-ls" == "find " + path + "  -ls"
  {
    var x := "find " + path;
    assert "  " + "-ls" == "  -ls";
    assert x + "  " + "-ls" == x + ("  " + "-ls");
  }

  /** `SELECT * FROM <path>`. */
  lemma ListingScenario(path: string)
    ensures Translate(SelectStatement("SELECT", Wildcard, "FROM", IdentList(path), [])) == Success("find " + path + "  -ls")
  {
    Words();
    WildcardListing("SELECT", "FROM", path);
  }
}
