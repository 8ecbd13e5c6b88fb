# sqlfs translator — a Dafny model

sqlfs turns a small SQL dialect about files into a `find` command line:
`SELECT name,sz FROM /tmp WHERE sz>100` becomes
`find /tmp  -size +100c -printf '%p\t%s\n'`. Written with spaces,
`sz > 100` is rejected: the parser then makes the whitespace the
comparison's operator, and whitespace is not a comparator the translator
knows. This project models the
translator in `translators.py`. It covers the three rule tables, the WHERE-clause
condition extractor, the SELECT rule that assembles
`find <path> <tests> <action>`, and the dispatcher keyed by statement type.
It then proves what each part does.

Modules:

- `Wrappers`: `Option` and `Result`. A Python exception that aborts a
  translation becomes a `Failure` carrying an `Error` that says which lookup
  or step failed.
- `PyText`: the Python string operations the translator relies on. These are
  `lower`/`upper` on ASCII letters, `split` on one character, `join`, and
  `str.format` with automatically numbered `{}` fields. `Format` does what
  Python does: too few arguments is an error, and surplus arguments are
  ignored.
- `SqlTokens`: the parsed statement as the translator sees it. It is the
  statement's top-level tokens in order, with the whitespace that
  `token_next` skips already removed, so "the next token" is the next
  position. There are five token kinds:
  - keywords, tagged with sqlparse's `Keyword`, `Keyword.DML` or `Keyword.DDL` class;
  - the `*` wildcard;
  - identifier lists and other plain tokens, carried as their text (`IdentList`);
  - `Comparison(left, op, right)` groups;
  - `Where(items)` groups, whose `items[0]` is the WHERE keyword.

  The module also has the forward scans `token_next_match` and
  `token_next_by_instance`, and `get_type`.
- `Translators`: the tables, the extractor (`GetWhereConditions`, a method
  with a cursor loop, proved equal to the function `WhereConditions`), the
  rendering of the action and of each condition, `Select` and `Translate`.
  Also the lemmas relating them.
- `Scenarios`: whole statements and the commands or errors they give.

What is proved, in short:

- **Extraction.** A WHERE group yields conditions exactly when it is an
  alternation `c1 K2 c2 ... Kn cn`, where each `K` is AND or OR in any case,
  followed by nothing or by a token that is not AND/OR.
  - It then yields exactly n tuples in source order.
  - Fields are taken verbatim.
  - The first connective is `''`; every later one is `-and` or `-or`.
  - Nothing after the stopping token is ever examined.
  - Writing a well-formed condition list as a WHERE group and extracting it
    gives the list back.
- **Action.** A wildcard gives `-ls`. An attribute list gives the `ATTRS`
  placeholders in listed order, joined by `\t`, inside
  `-printf '...\n'`. A piece that is not a key, exactly as written, is an
  error: there is no trimming and no case folding.
- **Tests.**
  - Each condition renders as `connective + ' ' + template`, where the
    template is filled with the comparator's modifier and the value.
  - `sz` gives `-size <mod><value>c`.
  - `perm` gives `-perm <mod>` and drops the value, because its template has
    a single field.
  - Unknown fields and comparators are errors, and the first failing
    condition's error is the one reported.
- **Command.** With SELECT and FROM found, a command results exactly when
  the action, the conditions and every filter succeed. It is then
  `find <path> <tests> <action>`, with the tests the filters in condition
  order; otherwise the error is the first met in the source's order.
  Without WHERE the command is `"find " + path + "  " + action`.
  Before that, the clauses are looked up in source order: a missing SELECT
  or FROM, or nothing after one, is the error, and an attribute error comes
  before a missing FROM.
- **Dispatch.** Only statements of type `SELECT` are translated. Anything
  else is the unsupported-statement error, and the SELECT rule never raises
  that error itself.

## Model

| member | source | states |
|---|---|---|
| Translators.CONDITIONS | translators.py:5-6 | the test template of each field: `sz` is `-size {}{}c`, `perm` is `-perm {}`; `SizeTemplate`, `PermTemplate` and `TemplatesFit` state what they format to |
| Translators.COMPARISON | translators.py:7-9 | the modifier of each comparator: `<` is `-`, `=` is empty, `>` is `+`; `SizeFilter` and `PermFilter` state where it goes |
| Translators.ATTRS | translators.py:10-12 | the `-printf` placeholder of each attribute: `name` is `%p`, `sz` is `%s`, `perm` is `%M`; `Placeholders` and `AttributeNamesPlain` state their use |
| Translators.IsConnective | translators.py:58 | an AND or OR keyword of the plain keyword class, in any case; `ConnectiveFlag` and `ChainSound` state its use |
| Translators.Flag | translators.py:61 | `-` followed by the keyword's lower-cased text; `ConnectiveFlag` states that it is `-and` or `-or` |
| Translators.Record | translators.py:54-61 | the tuple of a comparison: connective, left operand, operator text and right operand, verbatim; `WhereConditionsSound` states that each tuple is read this way |
| Translators.GetWhereConditions | translators.py:45-66 | the cursor loop returns exactly the conditions `WhereConditions` defines, or the error for a missing comparison |
| Translators.WhereConditions | translators.py:51-66 | the conditions a WHERE group defines; no contract of its own, characterised by `WhereConditionsSound`, `WhereConditionsComplete`, `ExtractEncoded` and `UnexaminedSuffix`, and implemented by `GetWhereConditions` |
| Translators.Chain | translators.py:57-64 | the links after the first comparison; no contract of its own, characterised by `ChainSound`, `ChainComplete` and `ChainErrors` |
| Translators.ChainStep | translators.py:57-64 | one turn of the loop: a connective followed by a comparison adds one tuple and moves on two tokens; a connective without one makes the group malformed |
| Translators.WhereConditionsSound | translators.py:51-66 | a successful extraction comes from an alternation of as many comparisons as tuples returned, and returns one tuple per comparison in source order, read verbatim |
| Translators.WhereConditionsComplete | translators.py:51-66 | every alternation of n comparisons (ended by nothing or a non-AND/OR token) yields exactly its n tuples |
| Translators.ChainSound | translators.py:57-64 | what the loop collects after the first comparison is a run of AND/OR–comparison links, one tuple per link, stopped by a token that is not AND/OR |
| Translators.ChainComplete | translators.py:57-64 | every such run of links is collected completely |
| Translators.ChainErrors | translators.py:53-64 | the loop only fails for want of a comparison after WHERE or after AND/OR |
| Translators.AlternationLinks | translators.py:53-64 | an alternation is a first comparison followed by links; positions shift by two |
| Translators.UnexaminedSuffix | translators.py:57-64 | replacing everything after the token that stops the loop leaves the result unchanged |
| Translators.WhereConditionsWellFormed | translators.py:54-61 | the first connective is `''` and every later one is `-and` or `-or` |
| Translators.ConnectiveFlag | translators.py:61 | an AND/OR keyword in any case is recorded as `-and` exactly when it is AND, otherwise `-or` |
| Translators.KeywordWords | translators.py:58 | the searched words are their own upper-case forms and AND/OR lower-case to `and`/`or` |
| Translators.ExtractEncoded | translators.py:51-66 | round trip: extracting from the WHERE group written for a well-formed condition list gives the list back |
| Translators.Placeholders | translators.py:29 | succeeds exactly when every name is an `ATTRS` key; the placeholders are the names' entries in order; otherwise the first unknown name is the error |
| Translators.WildcardAction | translators.py:26-27 | a wildcard projection gives `-ls` |
| Translators.PrintfAction | translators.py:29 | a comma-joined list of known names gives `-printf '` + their placeholders joined by `\t` + `\n'` |
| Translators.KnownPlaceholders | translators.py:29 | corollary of `Placeholders`: for known names the result equals the sequence of their `ATTRS` entries |
| Translators.SplitAttributeList | translators.py:29 | splitting a comma-joined list of known names at commas gives the names back |
| Translators.AttributeNamesPlain | translators.py:10-12 | no attribute name contains a comma |
| Translators.UnknownAttributeFails | translators.py:29 | a piece of the attribute text that is not an `ATTRS` key, as written, makes the action an unknown-attribute error naming a non-key |
| Translators.SizeTemplate | translators.py:5 | `-size {}{}c` has two fields and formats to `-size ` + modifier + value + `c` |
| Translators.PermTemplate | translators.py:6 | `-perm {}` has one field and formats to `-perm ` + modifier, ignoring the value |
| Translators.TemplatesFit | translators.py:5-6 | every template has at most the two fields it is given |
| Translators.CommandFormat | translators.py:40 | `find {} {} {}` has three fields and formats to the path, tests and action each after one space |
| Translators.FindCommand | translators.py:40 | the command is `find ` + path + ` ` + tests + ` ` + action |
| Translators.RenderCondition | translators.py:38 | succeeds exactly when the lower-cased field is a `CONDITIONS` key and the comparator a `COMPARISON` key; the field is checked first, and each miss has its own error |
| Translators.SizeFilter | translators.py:38 | a `sz` condition (any case) renders as connective + ` -size ` + modifier + value + `c` |
| Translators.PermFilter | translators.py:38 | a `perm` condition renders as connective + ` -perm ` + modifier |
| Translators.PermIgnoresValue | translators.py:38 | two `perm` conditions that differ only in value render alike |
| Translators.RenderConditions | translators.py:38 | succeeds exactly when every condition renders; then one filter per condition, in order |
| Translators.RenderConditionsFirstError | translators.py:38 | a failure is the error of the first condition that does not render; all before it render |
| Translators.ActionFor | translators.py:24-29 | the action; no contract of its own, characterised by `WildcardAction`, `PrintfAction` and `UnknownAttributeFails` |
| Translators.NextAfterKeyword | translators.py:21-24 | the position after the first keyword of the class and word; missing keyword and missing next token are distinct errors |
| Translators.Select | translators.py:15-42 | the SELECT rule; no contract of its own, its behaviour is stated by `SelectLookupOrder` (SELECT or FROM missing or with nothing after it), `SelectCommand`, `SelectNoWhere`, `SelectWithWhere` and `SelectErrors` |
| Translators.SelectLookupOrder | translators.py:21-33 | the clauses are looked up in source order and the first failure is the error: the token after SELECT, then the action built from it, then the token after FROM; a missing keyword and a keyword with nothing after it are distinct errors |
| Translators.SelectCommand | translators.py:21-42 | with SELECT and FROM located, a command results exactly when the action, the conditions and every condition's filter succeed; it is then `find ` + path + ` ` + the filters joined by single spaces, in condition order, + ` ` + action; otherwise the error is the action's, else the conditions', else the first failing filter's |
| Translators.SelectNoWhere | translators.py:35-40 | for any statement with SELECT and FROM located and no WHERE group, the command is `find ` + path + two spaces + action, or the action's error |
| Translators.StatementConditions | translators.py:35-36 | the conditions of the statement's first WHERE group, none without one; no contract of its own, characterised through `SelectNoWhere` and `SelectWithWhere` |
| Translators.RenderedFilters | translators.py:38 | corollary of `RenderConditions`: when all conditions render, the filter list equals the sequence of each condition's rendering |
| Translators.SelectErrors | translators.py:15-42 | the SELECT rule never reports an unsupported statement |
| Translators.TRANSLATORS | translators.py:69 | the rule table, with an entry for SELECT only; `TranslateDispatch` states that every other type is unsupported |
| Translators.Apply | translators.py:80 | calls the rule the table gives; `TranslateDispatch` states that a SELECT statement reaches `Select` |
| Translators.Translate | translators.py:72-80 | dispatch on the statement type; no contract of its own, characterised by `TranslateDispatch` |
| Translators.TranslateDispatch | translators.py:72-80 | a SELECT statement goes to the SELECT rule; any other type, exactly those, is the unsupported-statement error |
| Translators.SelectLayout | translators.py:21-35 | in `SELECT <proj> FROM <path> [WHERE ...]` the scans find SELECT at 0, FROM at 2 and WHERE at 4 or nowhere; the type is SELECT |
| Translators.SelectWithoutWhere | translators.py:35-40 | without WHERE the command is `find ` + path + two spaces + action, or the action's error |
| Translators.SelectWithWhere | translators.py:15-42 | with a WHERE group the command is built from the group's extracted conditions; an attribute, extraction or rendering error gives no command |
| SqlTokens.Text | translators.py:33 | the `value` of a token (also at line 29): its text for keywords, the wildcard and plain tokens; rebuilt from the parts for groups (see "Left out") |
| SqlTokens.Matches | translators.py:58 | a keyword of the class whose upper-cased text is the word (also the test of the scans at lines 21 and 31); `FindFirst` and `ConnectiveFlag` state what it selects |
| SqlTokens.TokenNext | translators.py:53-64 | the next position or none at the end (also at lines 24 and 33); `NextAfterKeyword` and `GetWhereConditions` state its use |
| SqlTokens.StatementType | translators.py:78 | the upper-cased first keyword when it is DML or DDL, `UNKNOWN` otherwise; `TranslateDispatch` and `SelectLayout` state how it selects the rule |
| SqlTokens.FindFirst | translators.py:21 | the first position at or after the start that matches, none before it; or none at all |
| PyText.Lower | translators.py:38 | `str.lower` on ASCII letters, character by character |
| PyText.Upper | translators.py:58 | `str.upper` on ASCII letters, character by character |
| PyText.LowerOfUpper | translators.py:61 | texts equal once upper-cased are equal once lower-cased |
| PyText.Join | translators.py:38 | `sep.join(parts)` (also at line 29); no contract of its own, characterised by its inverse `Split` in `JoinSplit` and `SplitJoin` |
| PyText.Split | translators.py:29 | never empty; no piece contains the separator |
| PyText.JoinSplit | translators.py:29 | joining the pieces of a split gives the text back |
| PyText.SplitJoin | translators.py:29 | splitting a join of separator-free pieces gives the pieces back |
| PyText.SplitWord | translators.py:29 | a separator-free prefix only extends the first piece |
| PyText.Format | translators.py:38 | succeeds exactly when there are at least as many arguments as `{}` fields |
| PyText.FormatIgnoresSurplus | translators.py:38 | surplus arguments change nothing |
| PyText.FormatLiteralPrefix | translators.py:40 | text without `{` is copied through |
| PyText.FieldsLiteralPrefix | translators.py:40 | text without `{` adds no fields |
| PyText.PlainText | translators.py:40 | text without `{` has no fields and formats to itself |
| PyText.FieldThen | translators.py:40 | a leading `{}` takes the first argument |
| PyText.FieldAfterLiteral | translators.py:40 | a field after literal text takes the first argument |
| Scenarios.Words | translators.py:21 | `select`/`from` in lower case normalise to SELECT/FROM; `SZ` lower-cases to `sz` |
| Scenarios.NameSizeAction | translators.py:29 | `name,sz` gives `-printf '%p\t%s\n'` |
| Scenarios.LargerThan | translators.py:38 | the condition (sz, >, n), written `sz>n`, renders as ` -size +nc` |
| Scenarios.OneCondition | translators.py:53-54 | a WHERE group with one comparison gives one tuple with connective `''` |
| Scenarios.SizeScenario | translators.py:15-42 | `select name,sz from p WHERE sz>n` gives `find p  -size +nc -printf '%p\t%s\n'` |
| Scenarios.TwoAttributes | translators.py:29 | in `a,b` with `b` unknown, `b` is the error |
| Scenarios.SpacedAction | translators.py:29 | `name, sz` fails on ` sz` (no trimming) |
| Scenarios.SpacedAttributesScenario | translators.py:29 | `SELECT name, sz FROM p` gives no command |
| Scenarios.TwoConditions | translators.py:53-64 | `WHERE c1 AND c2` gives two tuples, the second with `-and` |
| Scenarios.PermEqualFilter | translators.py:38 | the condition (perm, =, v) renders as ` -perm ` without v |
| Scenarios.AndSmallerFilter | translators.py:38 | the AND-joined condition (sz, <, n) renders as `-and -size -nc` |
| Scenarios.UpperSizeFilter | translators.py:38 | the field `SZ` is looked up lower-cased and renders as a size test |
| Scenarios.PermissionFilters | translators.py:38 | `perm=v AND SZ<n` renders to two filters in order |
| Scenarios.PermissionScenario | translators.py:15-42 | `SELECT * FROM p WHERE perm=v AND SZ<n` gives `find p  -perm  -and -size -nc -ls` |
| Scenarios.UnknownFieldScenario | translators.py:38 | `WHERE name=v` fails on the field `name` |
| Scenarios.DeleteScenario | translators.py:78-80 | `DELETE FROM p` is an unsupported statement |
| Scenarios.MissingFromScenario | translators.py:31-32 | `SELECT *` has no FROM: the missing-keyword error for FROM |
| Scenarios.MissingPathScenario | translators.py:31-33 | `SELECT * FROM` has nothing after FROM: the missing-token error for FROM |
| Scenarios.ActionBeforeFromScenario | translators.py:24-31 | `SELECT a` with `a` not an attribute: the unknown-attribute error, because the action is built before FROM is looked up |
| Scenarios.BareSelectScenario | translators.py:21-24 | a bare `SELECT`: the missing-token error for SELECT |
| Scenarios.WildcardListing | translators.py:15-42 | `SELECT * FROM p`, keywords in any case, gives `find p  -ls` |
| Scenarios.ListingScenario | translators.py:15-42 | `SELECT * FROM p` gives `find p  -ls` |
| Scenarios.TerminatedListing | translators.py:15-42 | `SELECT * FROM p;` gives the same `find p  -ls`: a token after the path that is not a WHERE group changes nothing |

## Left out

- sqlfs.py is not part of this model. Reading arguments, printing,
  `sqlparse.parse` and running the command through a shell are I/O and
  process plumbing.
- The parser is abstracted. The statement is given as its top-level
  tokens, with whitespace removed in advance.
  - `token_next_match`, `token_next_by_instance`, `token_next` and
    `token_index` are scans and position arithmetic over that sequence.
  - `get_type` reads the first token only. sqlparse's skipping of leading
    comments and its handling of `WITH` are not modelled.
- Keyword matching compares the keyword's upper-cased text with the word,
  and the patterns hold the word already upper-cased. All words the source
  searches for (SELECT, FROM, AND, OR) are upper-case already.
- Case mapping covers ASCII letters only, not the full Unicode tables.
- Text is modelled as sequences of Unicode characters. The program runs
  under Python 2, where sqlparse's token values are `unicode` strings and
  the templates at lines 38 and 40 of `translators.py` are byte strings.
  Formatting a non-ASCII path or condition value there raises
  `UnicodeEncodeError`. The model has no such error: it returns a command.
- `str.format` is modelled for `{}` fields only, which is all the source's
  templates use.
- `SqlTokens.Text`: the `value` of a group is rebuilt from its parts, because
  the model has no whitespace tokens. A comparison's parts are run together,
  and a WHERE group's items are joined by single spaces. sqlparse's `value`
  keeps the statement's own whitespace. So when a group follows SELECT or
  FROM, the attribute text or path can differ from the source's in spacing.
  For example, in `SELECT * FROM WHERE sz>1` the WHERE group is taken as
  the path.
- A comparison's operator is its second child token, taken verbatim. When
  the parser puts whitespace there, the model carries that text as the
  operator, as the code does.
- The meaning of the generated command is not modelled. The model stops at
  the string: it does not capture what `find` does or how it evaluates
  `-and`/`-or`.
- The translator has rules for SELECT only: there are no DELETE or INSERT
  rules, no RECURSIVE or depth option and no `sum` pre-command, and the
  model has none either.
- Facts of the code the model keeps as they are: attribute lookups are
  case-sensitive and not trimmed; padding around the comparator is not
  skipped; a WHERE group without a comparison is a malformed-condition
  error.

