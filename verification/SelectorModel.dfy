/**
 Label selectors: what they are, how they are printed, and the lexer and parser as
 functions of the text and of the tokens that remain.
 */
module SelectorModel {
  datatype Result<+T> = Ok(value: T) | Err

  datatype Operator = Equals | NotEquals | In | NotIn

  datatype Requirement = Requirement(key: string, operator: Operator, values: seq<string>)

  // ---- Validation, as Kubernetes defines qualified names and label values ----

  predicate IsLower(c: char) { 'a' <= c <= 'z' || '0' <= c <= '9' }

  predicate IsAlnum(c: char) { IsLower(c) || 'A' <= c <= 'Z' }

  predicate IsNameChar(c: char) { IsAlnum(c) || c == '-' || c == '_' || c == '.' }

  predicate IsName(s: string) {
    && 1 <= |s| <= 63
    && IsAlnum(s[0]) && IsAlnum(s[|s| - 1])
    && forall i | 0 <= i < |s| :: IsNameChar(s[i])
  }

  /** Labels of lower-case letters, digits and inner dashes, joined by dots. */
  predicate IsSubdomain(s: string) {
    && 1 <= |s| <= 253
    && IsLower(s[0]) && IsLower(s[|s| - 1])
    && (forall i | 0 <= i < |s| :: IsLower(s[i]) || s[i] == '-' || s[i] == '.')
    && (forall i | 0 < i < |s| - 1 :: s[i] == '.' ==> IsLower(s[i - 1]) && IsLower(s[i + 1]))
  }

  predicate ValidKey(s: string) {
    IsName(s) || exists i | 0 <= i < |s| :: s[i] == '/' && IsSubdomain(s[..i]) && IsName(s[i + 1..])
  }

  predicate ValidValue(s: string) {
    s == "" || IsName(s)
  }

  // ---- Sets of strings, kept as sorted lists ----

  predicate Less(a: string, b: string) {
    b != "" && (a == "" || a[0] < b[0] || (a[0] == b[0] && Less(a[1..], b[1..])))
  }

  predicate Sorted(l: seq<string>) {
    forall i, j | 0 <= i < j < |l| :: Less(l[i], l[j])
  }

  function Insert(l: seq<string>, s: string): seq<string> {
    if l == [] then [s]
    else if s == l[0] then l
    else if Less(s, l[0]) then [s] + l
    else [l[0]] + Insert(l[1..], s)
  }

  /** In order, where values may be repeated. */
  predicate InOrder(l: seq<string>) {
    forall i, j | 0 <= i < j < |l| :: l[i] == l[j] || Less(l[i], l[j])
  }

  /** A value put in its place in a list, in front of equal ones. */
  function Place(l: seq<string>, s: string): seq<string> {
    if l == [] then [s]
    else if s == l[0] || Less(s, l[0]) then [s] + l
    else [l[0]] + Place(l[1..], s)
  }

  function SortValues(vs: seq<string>): seq<string> {
    if vs == [] then [] else Place(SortValues(vs[1..]), vs[0])
  }

  // ---- Printing ----

  function Join(parts: seq<string>, sep: string): string {
    if parts == [] then ""
    else if |parts| == 1 then parts[0]
    else parts[0] + (sep + Join(parts[1..], sep))
  }

  function PrintOperator(op: Operator): string {
    match op
    case Equals => "="
    case NotEquals => "!="
    case In => " in "
    case NotIn => " notin "
  }

  /** A single value is printed bare, any other number of them in parentheses. */
  function PrintValues(vs: seq<string>): string {
    if |vs| == 1 then vs[0] else "(" + (Join(vs, ",") + ")")
  }

  function PrintRequirement(r: Requirement): string {
    r.key + PrintOperator(r.operator) + PrintValues(r.values)
  }

  function Prints(rs: seq<Requirement>): seq<string> {
    if rs == [] then [] else [PrintRequirement(rs[0])] + Prints(rs[1..])
  }

  function Print(rs: seq<Requirement>): string {
    Join(Prints(rs), ",")
  }

  // ---- Lexing ----

  datatype Token =
    | ErrorToken | EndOfString | ClosedPar | Comma | EqualsToken
    | Identifier | InToken | NotEqualsToken | NotInToken | OpenPar

  datatype Item = Item(tok: Token, literal: string)

  predicate IsWhitespace(c: char) { c == ' ' || c == '\t' || c == '\r' || c == '\n' }

  predicate IsSpecial(c: char) { c == '=' || c == '!' || c == '(' || c == ')' || c == ',' }

  /** A character that continues a word. */
  predicate IsPlain(c: char) { !IsWhitespace(c) && !IsSpecial(c) && c != '\0' }

  /** The token a text is the literal of, if it is one. */
  function TokenOf(s: string): Token {
    if s == ")" then ClosedPar
    else if s == "," then Comma
    else if s == "=" then EqualsToken
    else if s == "in" then InToken
    else if s == "!=" then NotEqualsToken
    else if s == "notin" then NotInToken
    else if s == "(" then OpenPar
    else ErrorToken
  }

  function WordItem(s: string): Item {
    Item(if TokenOf(s) != ErrorToken then TokenOf(s) else Identifier, s)
  }

  function WordLength(r: string): (n: nat)
    ensures n <= |r|
  {
    if r == "" || !IsPlain(r[0]) then 0 else 1 + WordLength(r[1..])
  }

  /** What is left after a zero byte, which ends a token and is consumed by it. */
  function AfterZero(r: string): string {
    if r != "" && r[0] == '\0' then r[1..] else r
  }

  /** The longest operator from the symbols that follow; `last` is the last one recognised. */
  function ScanSymbols(r: string, buffer: string, last: Item): (Item, string)
    decreases |r|
  {
    if r == "" || !IsSpecial(r[0]) then (last, AfterZero(r))
    else
      var buffer' := buffer + [r[0]];
      if TokenOf(buffer') != ErrorToken then ScanSymbols(r[1..], buffer', Item(TokenOf(buffer'), buffer'))
      else if last.tok != ErrorToken then (last, r)
      else ScanSymbols(r[1..], buffer', last)
  }

  function SkipBlanks(r: string): (r': string)
    ensures |r'| <= |r| && (r' != "" ==> !IsWhitespace(r'[0]))
  {
    if r != "" && IsWhitespace(r[0]) then SkipBlanks(r[1..]) else r
  }

  const NoItem := Item(ErrorToken, "")

  /** The next token of a text and what is left of it. */
  function Next(r: string): (Item, string) {
    var r := SkipBlanks(r);
    if r == "" || r[0] == '\0' then (Item(EndOfString, ""), AfterZero(r))
    else if IsSpecial(r[0]) then ScanSymbols(r, "", NoItem)
    else (WordItem(r[..WordLength(r)]), AfterZero(r[WordLength(r)..]))
  }

  lemma ScanSymbolsShrinks(r: string, buffer: string, last: Item)
    ensures |ScanSymbols(r, buffer, last).1| <= |r|
    ensures last.tok == ErrorToken && r != "" && IsSpecial(r[0]) ==> |ScanSymbols(r, buffer, last).1| < |r|
    ensures last.tok != EndOfString ==> ScanSymbols(r, buffer, last).0.tok != EndOfString
    decreases |r|
  {
  }

  /** Every token but the last takes something from the text. */
  lemma NextShrinks(r: string)
    ensures Next(r).0.tok != EndOfString ==> |Next(r).1| < |r|
  {
    ScanSymbolsShrinks(SkipBlanks(r), "", NoItem);
  }

  function Tokenize(r: string): seq<Item>
    decreases |r|
  {
    NextShrinks(r);
    var (item, rest) := Next(r);
    if item.tok == EndOfString then [item] else [item] + Tokenize(rest)
  }

  // ---- Parsing, on the tokens that remain ----

  type Tokens = seq<Item>

  /** The token at hand; the list the lexer makes ends with the end of the text. */
  function Head(ts: Tokens): Item {
    if ts == [] then Item(EndOfString, "") else ts[0]
  }

  function Tail(ts: Tokens): Tokens {
    if ts == [] then [] else ts[1..]
  }

  /** Where a value may stand the words of operators are identifiers too. */
  predicate IsWord(tok: Token) { tok == Identifier || tok == InToken || tok == NotInToken }

  function IdentifierList(ts: Tokens, acc: seq<string>): (r: Result<(seq<string>, Tokens)>)
    ensures r.Ok? ==> |r.value.1| < |ts|
    decreases |ts|
  {
    var t, next := Head(ts), Head(Tail(ts)).tok;
    if IsWord(t.tok) then
      var acc' := Insert(acc, t.literal);
      if next == Comma then IdentifierList(Tail(ts), acc')
      else if next == ClosedPar then Ok((acc', Tail(ts)))
      else Err
    else if t.tok == Comma then
      var acc' := if acc == [] then Insert(acc, "") else acc;
      if next == ClosedPar then Ok((Insert(acc', ""), Tail(ts)))
      else if next == Comma then IdentifierList(Tail(Tail(ts)), Insert(acc', ""))
      else IdentifierList(Tail(ts), acc')
    else Err
  }

  function ParseValues(ts: Tokens): (r: Result<(seq<string>, Tokens)>)
    ensures r.Ok? ==> |r.value.1| < |ts|
  {
    var next := Head(Tail(ts)).tok;
    if Head(ts).tok != OpenPar then Err
    else if IsWord(next) || next == Comma then
      match IdentifierList(Tail(ts), [])
      case Err => Err
      case Ok((values, rest)) => if Head(rest).tok == ClosedPar then Ok((values, Tail(rest))) else Err
    else if next == ClosedPar then Ok(([""], Tail(Tail(ts))))
    else Err
  }

  function ParseExactValue(ts: Tokens): (r: Result<(seq<string>, Tokens)>)
    ensures r.Ok? ==> |r.value.1| < |ts|
  {
    if IsWord(Head(ts).tok) then Ok(([Head(ts).literal], Tail(ts))) else Err
  }

  function ParseOperand(op: Operator, ts: Tokens): (r: Result<(seq<string>, Tokens)>)
    ensures r.Ok? ==> |r.value.1| < |ts|
  {
    if op == In || op == NotIn then ParseValues(ts) else ParseExactValue(ts)
  }

  function OperatorOf(tok: Token): Result<Operator> {
    match tok
    case InToken => Ok(In)
    case EqualsToken => Ok(Equals)
    case NotInToken => Ok(NotIn)
    case NotEqualsToken => Ok(NotEquals)
    case _ => Err
  }

  predicate CountOk(op: Operator, n: nat) {
    if op == Equals || op == NotEquals then n == 1 else n >= 1
  }

  /** The values are sorted; repeated ones stay. */
  function NewRequirement(key: string, op: Operator, values: seq<string>): Result<Requirement> {
    if ValidKey(key) && CountOk(op, |values|) && forall v <- values :: ValidValue(v)
    then Ok(Requirement(key, op, SortValues(values))) else Err
  }

  function ParseRequirement(ts: Tokens): (r: Result<(Requirement, Tokens)>)
    ensures r.Ok? ==> |r.value.1| < |ts|
  {
    var key := Head(ts);
    if !IsWord(key.tok) || !ValidKey(key.literal) then Err
    else
      match OperatorOf(Head(Tail(ts)).tok)
      case Err => Err
      case Ok(op) =>
        match ParseOperand(op, Tail(Tail(ts)))
        case Err => Err
        case Ok((values, rest)) =>
          match NewRequirement(key.literal, op, values)
          case Err => Err
          case Ok(r) => Ok((r, rest))
  }

  function ParseAll(ts: Tokens): Result<seq<Requirement>>
    decreases |ts|
  {
    if Head(ts).tok == EndOfString then Ok([])
    else if !IsWord(Head(ts).tok) then Err
    else
      match ParseRequirement(ts)
      case Err => Err
      case Ok((r, rest)) =>
        if Head(rest).tok == EndOfString then Ok([r])
        else if Head(rest).tok == Comma && IsWord(Head(Tail(rest)).tok) then
          match ParseAll(Tail(rest))
          case Err => Err
          case Ok(rs) => Ok([r] + rs)
        else Err
  }

  /** The requirements of a text, in the order they are written. */
  function ParseText(text: string): Result<seq<Requirement>> {
    ParseAll(Tokenize(text))
  }
}
