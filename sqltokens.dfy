/** A parsed SQL statement as the translator sees it: the top-level tokens of
    the statement in source order, with the whitespace tokens that
    `token_next` skips already removed. Positions in that sequence play the
    part of sqlparse's token indices, so "the next token after position i"
    is simply position i + 1. */
module SqlTokens {
  import opened Wrappers
  import opened PyText

  /** The keyword token types the translator distinguishes: sqlparse's
      `Keyword` (FROM, AND, OR, ...), `Keyword.DML` (SELECT, ...) and
      `Keyword.DDL` (CREATE, ...). */
  datatype KeywordClass = Plain | Dml | Ddl

  datatype Token =
    | Keyword(cls: KeywordClass, text: string)
      /** `*` in a projection */
    | Wildcard
      /** an identifier list or any other leaf token, carried by its text
          (attribute lists, paths, literals, punctuation) */
    | IdentList(text: string)
      /** a comparison group: the text of its left operand, of its second
          child token and of its right operand */
    | Comparison(left: string, op: string, right: string)
      /** a WHERE group; `items[0]` is the WHERE keyword itself */
    | Where(items: seq<Token>)

  /** The `value` text of a token. A comparison's is its three parts run
      together (the statement has no whitespace to put between them); a
      WHERE group's is the texts of its items separated by single spaces. */
  function Text(t: Token): string
    decreases t
  {
    match t
    case Keyword(_, s) => s
    case Wildcard => "*"
    case IdentList(s) => s
    case Comparison(l, o, r) => l + o + r
    case Where(items) =>
      Join(" ", seq(|items|, i requires 0 <= i < |items| => Text(items[i])))
  }

  /** What `token_next_match(0, type, word)` and `token_next_by_instance(0, Where)`
      look for. `normalized` is the word upper-cased, the form sqlparse
      compares keywords in. */
  datatype Pattern = KeywordPattern(cls: KeywordClass, normalized: string) | WherePattern

  /** `token.match(type, word)`: the token type must be exactly `type`, and
      a keyword matches when its upper-cased text is the upper-cased word. */
  predicate Matches(t: Token, p: Pattern) {
    match p
    case KeywordPattern(c, w) => t.Keyword? && t.cls == c && Upper(t.text) == w
    case WherePattern => t.Where?
  }

  /** The position of the first token at or after `from` that matches `p`
      (sqlparse's forward scan), or None when there is none. */
  function FindFirst(tokens: seq<Token>, p: Pattern, from: nat): (r: Option<nat>)
    ensures r.Some? ==> from <= r.value < |tokens| && Matches(tokens[r.value], p)
    ensures r.Some? ==> forall j {:trigger Matches(tokens[j], p)} :: from <= j < r.value ==> !Matches(tokens[j], p)
    ensures r.None? ==> forall j {:trigger Matches(tokens[j], p)} :: from <= j < |tokens| ==> !Matches(tokens[j], p)
    decreases |tokens| - from
  {
    if from >= |tokens| then None
    else if Matches(tokens[from], p) then Some(from)
    else FindFirst(tokens, p, from + 1)
  }

  /** `token_next(idx)`: the position of the token after `idx`, if any. */
  function TokenNext(tokens: seq<Token>, idx: nat): Option<nat> {
    if idx + 1 < |tokens| then Some(idx + 1) else None
  }

  /** `stmt.get_type()`: the normalised (upper-cased) text of the first
      token when that is a DML or DDL keyword, "UNKNOWN" otherwise. */
  function StatementType(stmt: seq<Token>): string {
    if |stmt| > 0 && stmt[0].Keyword? && stmt[0].cls != Plain then Upper(stmt[0].text)
    else "UNKNOWN"
  }
}
