/** The Python string operations the translator relies on: `lower`/`upper`
    (ASCII letters), `split` on one separator character, `join`, and
    `str.format` with automatically numbered `{}` fields. */
module PyText {
  import opened Wrappers

  function LowerChar(c: char): char {
    if 'A' <= c <= 'Z' then (c as int + 32) as char else c
  }

  function UpperChar(c: char): char {
    if 'a' <= c <= 'z' then (c as int - 32) as char else c
  }

  /** `s.lower()`, on ASCII letters. */
  function Lower(s: string): (r: string)
    ensures |r| == |s|
    ensures forall i :: 0 <= i < |s| ==> r[i] == LowerChar(s[i])
  {
    seq(|s|, i requires 0 <= i < |s| => LowerChar(s[i]))
  }

  /** `s.upper()`, on ASCII letters; sqlparse normalises keywords this way. */
  function Upper(s: string): (r: string)
    ensures |r| == |s|
    ensures forall i :: 0 <= i < |s| ==> r[i] == UpperChar(s[i])
  {
    seq(|s|, i requires 0 <= i < |s| => UpperChar(s[i]))
  }

  /** Two texts that agree once upper-cased also agree once lower-cased. */
  lemma LowerOfUpper(s: string, t: string)
    requires Upper(s) == Upper(t)
    ensures Lower(s) == Lower(t)
  {
    forall i | 0 <= i < |s|
      ensures Lower(s)[i] == Lower(t)[i]
    {
      assert UpperChar(s[i]) == Upper(s)[i] == Upper(t)[i] == UpperChar(t[i]);
    }
  }

  /** `sep.join(parts)`. */
  function Join(sep: string, parts: seq<string>): string
    decreases |parts|
  {
    if |parts| == 0 then ""
    else if |parts| == 1 then parts[0]
    else parts[0] + sep + Join(sep, parts[1..])
  }

  /** `s.split(sep)` for a one-character separator: the text between
      separators, empty pieces included, and never an empty list. */
  function Split(s: string, sep: char): (r: seq<string>)
    ensures |r| >= 1
    ensures forall i :: 0 <= i < |r| ==> sep !in r[i]
    decreases |s|
  {
    if |s| == 0 then [""]
    else
      var rest := Split(s[1..], sep);
      if s[0] == sep then [""] + rest
      else [[s[0]] + rest[0]] + rest[1..]
  }

  /** Joining the pieces of a split with the separator gives back the text. */
  lemma {:induction false} JoinSplit(s: string, sep: char)
    ensures Join([sep], Split(s, sep)) == s
    decreases |s|
  {
    if |s| > 0 {
      JoinSplit(s[1..], sep);
      var rest := Split(s[1..], sep);
      if s[0] == sep {
        assert Join([sep], [""] + rest) == "" + [sep] + Join([sep], rest);
        assert s == [s[0]] + s[1..];
      } else {
        var r := [[s[0]] + rest[0]] + rest[1..];
        if |rest| == 1 {
          assert Join([sep], r) == [s[0]] + rest[0];
        } else {
          assert r[1..] == rest[1..];
          assert Join([sep], rest) == rest[0] + [sep] + Join([sep], rest[1..]);
          assert Join([sep], r) == [s[0]] + rest[0] + [sep] + Join([sep], rest[1..]);
        }
        assert s == [s[0]] + s[1..];
      }
    }
  }

  /** Splitting a join of separator-free pieces gives back the pieces. */
  lemma {:induction false} SplitJoin(parts: seq<string>, sep: char)
    requires |parts| >= 1
    requires forall i :: 0 <= i < |parts| ==> sep !in parts[i]
    ensures Split(Join([sep], parts), sep) == parts
    decreases |parts|, |parts[0]|
  {
    var p := parts[0];
    if |parts| == 1 {
      SplitWord(p, [], sep);
      assert p + [] == p;
    } else {
      SplitJoin(parts[1..], sep);
      var tail := Join([sep], parts[1..]);
      assert Join([sep], parts) == p + ([sep] + tail);
      SplitWord(p, [sep] + tail, sep);
      assert ([sep] + tail)[1..] == tail;
      var u := Split([sep] + tail, sep);
      assert u == [""] + parts[1..];
      assert u[0] == "" && u[1..] == parts[1..];
      assert p + u[0] == p;
      assert parts == [p] + parts[1..];
    }
  }

  /** A separator-free word in front of some text only extends the first piece. */
  lemma {:induction false} SplitWord(w: string, s: string, sep: char)
    requires sep !in w
    ensures Split(w + s, sep) == [w + Split(s, sep)[0]] + Split(s, sep)[1..]
    decreases |w|
  {
    if |w| > 0 {
      SplitWord(w[1..], s, sep);
      assert (w + s)[1..] == w[1..] + s;
      assert (w + s)[0] == w[0];
      assert [w[0]] + (w[1..] + Split(s, sep)[0]) == w + Split(s, sep)[0];
    } else {
      var r := Split(s, sep);
      assert w + s == s && w + r[0] == r[0];
      assert r == [r[0]] + r[1..];
    }
  }

  /** True when `template` starts with an automatically numbered field `{}`. */
  predicate StartsWithField(template: string) {
    |template| >= 2 && template[0] == '{' && template[1] == '}'
  }

  /** The number of `{}` fields in a template. */
  function Fields(template: string): nat
    decreases |template|
  {
    if |template| == 0 then 0
    else if StartsWithField(template) then 1 + Fields(template[2..])
    else Fields(template[1..])
  }

  /** `template.format(*args)` for templates whose only replacement fields
      are `{}`: the i-th field receives the i-th argument, arguments beyond
      the fields are ignored, and too few arguments are an error (Python's
      IndexError, here None). */
  function Format(template: string, args: seq<string>): (r: Option<string>)
    ensures r.Some? <==> Fields(template) <= |args|
    decreases |template|
  {
    if |template| == 0 then Some("")
    else if StartsWithField(template) then
      if |args| == 0 then None
      else
        match Format(template[2..], args[1..])
        case None => None
        case Some(rest) => Some(args[0] + rest)
    else
      match Format(template[1..], args)
      case None => None
      case Some(rest) => Some([template[0]] + rest)
  }

  /** Surplus arguments to `format` change nothing. */
  lemma {:induction false} FormatIgnoresSurplus(template: string, args: seq<string>, extra: seq<string>)
    requires Fields(template) <= |args|
    ensures Format(template, args + extra) == Format(template, args)
    decreases |template|
  {
    if |template| > 0 {
      if StartsWithField(template) {
        assert (args + extra)[1..] == args[1..] + extra;
        FormatIgnoresSurplus(template[2..], args[1..], extra);
      } else {
        FormatIgnoresSurplus(template[1..], args, extra);
      }
    }
  }

  /** Text without a `{` is copied through by `format` unchanged. */
  lemma {:induction false} FormatLiteralPrefix(lit: string, template: string, args: seq<string>)
    requires '{' !in lit
    requires Fields(template) <= |args|
    ensures Format(lit + template, args) == Some(lit + Format(template, args).value)
    decreases |lit|
  {
    if |lit| == 0 {
      assert lit + template == template;
      assert lit + Format(template, args).value == Format(template, args).value;
    } else {
      var t := lit + template;
      assert t[0] == lit[0] && !StartsWithField(t);
      assert t[1..] == lit[1..] + template;
      FormatLiteralPrefix(lit[1..], template, args);
      assert [lit[0]] + (lit[1..] + Format(template, args).value) == lit + Format(template, args).value;
    }
  }

  lemma {:induction false} FieldsLiteralPrefix(lit: string, template: string)
    requires '{' !in lit
    ensures Fields(lit + template) == Fields(template)
    decreases |lit|
  {
    if |lit| == 0 {
      assert lit + template == template;
    } else {
      var t := lit + template;
      assert t[0] == lit[0] && !StartsWithField(t);
      assert t[1..] == lit[1..] + template;
      FieldsLiteralPrefix(lit[1..], template);
    }
  }

  /** Text without a `{` has no fields and formats to itself. */
  lemma PlainText(lit: string, args: seq<string>)
    requires '{' !in lit
    ensures Fields(lit) == 0 && Format(lit, args) == Some(lit)
  {
    assert lit + "" == lit;
    FieldsLiteralPrefix(lit, "");
    FormatLiteralPrefix(lit, "", args);
  }

  /** A field after a literal takes the first argument. */
  lemma FieldAfterLiteral(lit: string, template: string, arg: string, args: seq<string>)
    requires '{' !in lit
    requires Fields(template) <= |args|
    ensures Fields(lit + ("{}" + template)) == 1 + Fields(template)
    ensures Format(lit + ("{}" + template), [arg] + args) == Some(lit + (arg + Format(template, args).value))
  {
    FieldThen(template, arg, args);
    FieldsLiteralPrefix(lit, "{}" + template);
    FormatLiteralPrefix(lit, "{}" + template, [arg] + args);
  }

  /** A leading `{}` takes the first argument. */
  lemma FieldThen(template: string, arg: string, args: seq<string>)
    requires Fields(template) <= |args|
    ensures Fields("{}" + template) == 1 + Fields(template)
    ensures Format("{}" + template, [arg] + args) == Some(arg + Format(template, args).value)
  {
    var t := "{}" + template;
    assert StartsWithField(t) && t[2..] == template;
    assert ([arg] + args)[0] == arg && ([arg] + args)[1..] == args;
  }
}
