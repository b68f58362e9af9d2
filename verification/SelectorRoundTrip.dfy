/**
 Printing a selector and parsing the text again. The proof goes through the tokens: the
 lexer turns the printed text into exactly the tokens of the selector, and the parser
 turns those into the selector again, or refuses them.
 */
module SelectorRoundTrip {
  import opened SelectorModel

  // ---- The tokens of a selector ----

  const CommaItem := Item(Comma, ",")
  const EndItem := Item(EndOfString, "")

  /** An empty value has no token. */
  function ValueTokens(v: string): seq<Item> {
    if v == "" then [] else [WordItem(v)]
  }

  function ListTokens(vs: seq<string>): seq<Item> {
    if vs == [] then []
    else if |vs| == 1 then ValueTokens(vs[0])
    else ValueTokens(vs[0]) + ([CommaItem] + ListTokens(vs[1..]))
  }

  function OperatorItem(op: Operator): Item {
    match op
    case Equals => Item(EqualsToken, "=")
    case NotEquals => Item(NotEqualsToken, "!=")
    case In => Item(InToken, "in")
    case NotIn => Item(NotInToken, "notin")
  }

  function ValuesTokens(vs: seq<string>): seq<Item> {
    if |vs| == 1 then ValueTokens(vs[0]) else [Item(OpenPar, "(")] + (ListTokens(vs) + [Item(ClosedPar, ")")])
  }

  function RequirementTokens(r: Requirement): seq<Item> {
    [WordItem(r.key), OperatorItem(r.operator)] + ValuesTokens(r.values)
  }

  function SelectorTokens(rs: seq<Requirement>): seq<Item> {
    if rs == [] then [EndItem]
    else if |rs| == 1 then RequirementTokens(rs[0]) + [EndItem]
    else RequirementTokens(rs[0]) + ([CommaItem] + SelectorTokens(rs[1..]))
  }

  /** A requirement as its constructor makes them: valid, with the values in order, some perhaps repeated. */
  ghost predicate WellFormed(r: Requirement) {
    && ValidKey(r.key) && CountOk(r.operator, |r.values|) && InOrder(r.values)
    && forall i | 0 <= i < |r.values| :: ValidValue(r.values[i])
  }

  ghost predicate SelectorOk(rs: seq<Requirement>) {
    && (forall i | 0 <= i < |rs| :: WellFormed(rs[i]))
    && (forall i, j | 0 <= i < j < |rs| :: Less(rs[i].key, rs[j].key))
  }

  // ---- Lexing printed text ----

  predicate Word(w: string) {
    w != "" && forall i | 0 <= i < |w| :: IsPlain(w[i])
  }

  /** A text that a word can be followed by. */
  predicate Boundary(t: string) {
    t == "" || IsSpecial(t[0]) || IsWhitespace(t[0])
  }

  lemma {:induction false} WordLengthOf(w: string, t: string)
    requires (forall i | 0 <= i < |w| :: IsPlain(w[i])) && (t == "" || !IsPlain(t[0]))
    ensures WordLength(w + t) == |w|
  {
    if w == "" {
      assert w + t == t;
    } else {
      assert (w + t)[1..] == w[1..] + t;
      WordLengthOf(w[1..], t);
    }
  }

  lemma WordStep(w: string, t: string)
    requires Word(w) && Boundary(t)
    ensures Tokenize(w + t) == [WordItem(w)] + Tokenize(t)
  {
    WordLengthOf(w, t);
    assert (w + t)[0] == w[0] && IsPlain(w[0]);
    assert SkipBlanks(w + t) == w + t;
    assert (w + t)[..|w|] == w && (w + t)[|w|..] == t;
    assert Next(w + t) == (WordItem(w), t);
  }

  predicate Symbol(s: string) {
    s == "=" || s == "!=" || s == "(" || s == ")" || s == ","
  }

  /** After an operator no further symbol can make it longer. */
  lemma SymbolEnds(s: string, t: string)
    requires Symbol(s) && (t == "" || t[0] != '\0')
    ensures ScanSymbols(t, s, Item(TokenOf(s), s)) == (Item(TokenOf(s), s), t)
  {
    if t != "" && IsSpecial(t[0]) {
      var longer := s + [t[0]];
      assert |longer| == |s| + 1 && longer[0] == s[0] && longer[|s|] == t[0];
      assert TokenOf(longer) == ErrorToken;
    }
  }

  lemma SymbolStep(s: string, t: string)
    requires Symbol(s) && (t == "" || t[0] != '\0')
    ensures Tokenize(s + t) == [Item(TokenOf(s), s)] + Tokenize(t)
  {
    SymbolScans(s, t);
    var r := s + t;
    assert r[0] == s[0] && SkipBlanks(r) == r;
  }

  lemma SymbolScans(s: string, t: string)
    requires Symbol(s) && (t == "" || t[0] != '\0')
    ensures ScanSymbols(s + t, "", NoItem) == (Item(TokenOf(s), s), t)
  {
    SymbolEnds(s, t);
    var r := s + t;
    if s == "!=" {
      assert r[1..] == "=" + t && r[1..][1..] == t;
      assert "" + [r[0]] == "!" && "!" + [r[1..][0]] == "!=";
    } else {
      assert r[1..] == t && "" + [r[0]] == s;
    }
  }

  lemma BlankStep(t: string)
    ensures Tokenize(" " + t) == Tokenize(t)
  {
    assert (" " + t)[1..] == t;
    assert SkipBlanks(" " + t) == SkipBlanks(t);
  }

  /** Blanks, tabs and line ends in front of anything change nothing. */
  lemma BlanksIgnored(c: char, t: string)
    requires c == ' ' || c == '\t' || c == '\r' || c == '\n'
    ensures Tokenize([c] + t) == Tokenize(t)
  {
    assert ([c] + t)[1..] == t;
    assert SkipBlanks([c] + t) == SkipBlanks(t);
  }

  /** A zero byte ends a word and is taken with it; where a word would begin it is the end of the text. */
  lemma ZeroSeparates(w: string, t: string)
    requires Word(w)
    ensures Tokenize(w + ("\0" + t)) == [WordItem(w)] + Tokenize(t) && Tokenize("\0" + t) == [EndItem]
  {
    var zero := "\0" + t;
    var r := w + zero;
    WordLengthOf(w, zero);
    assert r[0] == w[0] && IsPlain(w[0]) && SkipBlanks(r) == r;
    assert r[..|w|] == w && r[|w|..] == zero && zero[1..] == t;
    assert Next(r) == (WordItem(w), t);
  }

  lemma ValueStep(v: string, t: string)
    requires ValidValue(v) && Boundary(t)
    ensures Tokenize(v + t) == ValueTokens(v) + Tokenize(t)
  {
    if v == "" {
      assert v + t == t;
    } else {
      NameIsWord(v);
      WordStep(v, t);
    }
  }

  /** The text `a` in front of `t` lexes to `tokens` in front of the tokens of `t`. */
  ghost predicate Lexes(a: string, tokens: seq<Item>, t: string) {
    Tokenize(a + t) == tokens + Tokenize(t)
  }

  lemma Then(a: string, ta: seq<Item>, b: string, tb: seq<Item>, t: string)
    requires Lexes(a, ta, b + t) && Lexes(b, tb, t)
    ensures Lexes(a + b, ta + tb, t)
  {
    assert (a + b) + t == a + (b + t);
    assert (ta + tb) + Tokenize(t) == ta + (tb + Tokenize(t));
  }

  predicate NoZero(t: string) {
    t == "" || t[0] != '\0'
  }

  lemma {:induction false} ListStep(vs: seq<string>, t: string)
    requires (forall i | 0 <= i < |vs| :: ValidValue(vs[i])) && Boundary(t)
    ensures Lexes(Join(vs, ","), ListTokens(vs), t)
  {
    if vs == [] {
      assert Join(vs, ",") + t == t;
    } else if |vs| == 1 {
      ValueStep(vs[0], t);
    } else {
      ListStep(vs[1..], t);
      NoZeroFirst(vs[1..], t);
      ListParts(vs);
      ValueAndMore(vs[0], Join(vs[1..], ","), ListTokens(vs[1..]), t);
    }
  }

  lemma ListParts(vs: seq<string>)
    requires |vs| > 1
    ensures Join(vs, ",") == vs[0] + ("," + Join(vs[1..], ","))
    ensures ListTokens(vs) == ValueTokens(vs[0]) + ([CommaItem] + ListTokens(vs[1..]))
  {
  }

  /** A value, a comma and a text that is already known to be lexed. */
  lemma ValueAndMore(v: string, more: string, tokens: seq<Item>, t: string)
    requires ValidValue(v) && Lexes(more, tokens, t) && NoZero(more + t)
    ensures Lexes(v + ("," + more), ValueTokens(v) + ([CommaItem] + tokens), t)
  {
    SymbolStep(",", more + t);
    Then(",", [CommaItem], more, tokens, t);
    assert ("," + more) + t == "," + (more + t);
    ValueStep(v, ("," + more) + t);
    Then(v, ValueTokens(v), "," + more, [CommaItem] + tokens, t);
  }

  lemma NoZeroFirst(vs: seq<string>, t: string)
    requires (forall i | 0 <= i < |vs| :: ValidValue(vs[i])) && Boundary(t)
    ensures NoZero(Join(vs, ",") + t)
  {
    if vs != [] && vs[0] != "" { assert IsNameChar(vs[0][0]); }
  }

  lemma ValuesStep(vs: seq<string>, t: string)
    requires (forall i | 0 <= i < |vs| :: ValidValue(vs[i])) && Boundary(t)
    ensures Lexes(PrintValues(vs), ValuesTokens(vs), t) && NoZero(PrintValues(vs) + t)
  {
    if |vs| == 1 {
      ValueStep(vs[0], t);
      NoZeroFirst(vs, t);
    } else {
      SetStep(vs, t);
    }
  }

  /** Values in parentheses, as text and as tokens. */
  function SetText(vs: seq<string>): string {
    "(" + (Join(vs, ",") + ")")
  }

  function SetTokens(vs: seq<string>): seq<Item> {
    [Item(OpenPar, "(")] + (ListTokens(vs) + [Item(ClosedPar, ")")])
  }

  lemma SetStep(vs: seq<string>, t: string)
    requires (forall i | 0 <= i < |vs| :: ValidValue(vs[i])) && Boundary(t)
    ensures Lexes(SetText(vs), SetTokens(vs), t) && NoZero(SetText(vs) + t)
  {
    NoZeroFirst(vs, ")" + t);
    ListStep(vs, ")" + t);
    SetLexed(Join(vs, ","), ListTokens(vs), t);
  }

  lemma SetLexed(inner: string, tokens: seq<Item>, t: string)
    requires Lexes(inner, tokens, ")" + t) && NoZero(inner + (")" + t)) && NoZero(t)
    ensures Lexes("(" + (inner + ")"), [Item(OpenPar, "(")] + (tokens + [Item(ClosedPar, ")")]), t)
    ensures NoZero("(" + (inner + ")") + t)
  {
    SymbolStep(")", t);
    Then(inner, tokens, ")", [Item(ClosedPar, ")")], t);
    assert inner + ")" + t == inner + (")" + t);
    OpenedStep(inner + ")", tokens + [Item(ClosedPar, ")")], t);
  }

  lemma OpenedStep(inside: string, tokens: seq<Item>, t: string)
    requires Lexes(inside, tokens, t) && NoZero(inside + t)
    ensures Lexes("(" + inside, [Item(OpenPar, "(")] + tokens, t) && NoZero(("(" + inside) + t)
  {
    SymbolStep("(", inside + t);
    Then("(", [Item(OpenPar, "(")], inside, tokens, t);
  }

  lemma SymbolLexes(s: string, t: string)
    requires Symbol(s) && NoZero(t)
    ensures Lexes(s, [Item(TokenOf(s), s)], t)
  {
    SymbolStep(s, t);
  }

  lemma InLexes(t: string)
    ensures Lexes(" in ", [Item(InToken, "in")], t)
  {
    BlankedWord("in", t);
    assert " in " == " " + "in" + " ";
  }

  lemma NotInLexes(t: string)
    ensures Lexes(" notin ", [Item(NotInToken, "notin")], t)
  {
    BlankedWord("notin", t);
    assert " notin " == " " + "notin" + " ";
  }

  lemma OperatorStep(op: Operator, t: string)
    requires NoZero(t)
    ensures Lexes(PrintOperator(op), [OperatorItem(op)], t)
  {
    match op
    case Equals => SymbolLexes("=", t);
    case NotEquals => SymbolLexes("!=", t);
    case In => InLexes(t);
    case NotIn => NotInLexes(t);
  }

  lemma BlankedWord(w: string, t: string)
    requires Word(w)
    ensures Lexes(" " + w + " ", [WordItem(w)], t)
  {
    assert " " + w + " " + t == " " + (w + (" " + t));
    BlankStep(w + (" " + t));
    WordStep(w, " " + t);
    BlankStep(t);
  }

  lemma NameIsWord(s: string)
    requires IsName(s)
    ensures Word(s)
  {
  }

  lemma SubdomainIsWord(s: string)
    requires IsSubdomain(s)
    ensures Word(s)
  {
  }

  lemma SlashedIsWord(key: string, i: nat)
    requires i < |key| && key[i] == '/' && IsSubdomain(key[..i]) && IsName(key[i + 1..])
    ensures Word(key)
  {
    var a, b := key[..i], key[i + 1..];
    SubdomainIsWord(a);
    NameIsWord(b);
    forall j | 0 <= j < |key| ensures IsPlain(key[j]) {
      assert if j < i then key[j] == a[j] else j == i || key[j] == b[j - i - 1];
    }
  }

  lemma KeyIsWord(key: string)
    requires ValidKey(key)
    ensures Word(key)
  {
    if IsName(key) {
      NameIsWord(key);
    } else {
      var i :| 0 <= i < |key| && key[i] == '/' && IsSubdomain(key[..i]) && IsName(key[i + 1..]);
      SlashedIsWord(key, i);
    }
  }

  lemma KeyStep(key: string, op: Operator, t: string)
    requires ValidKey(key) && NoZero(t)
    ensures Lexes(key + PrintOperator(op), [WordItem(key), OperatorItem(op)], t)
  {
    OperatorStep(op, t);
    KeyIsWord(key);
    WordStep(key, PrintOperator(op) + t);
    Then(key, [WordItem(key)], PrintOperator(op), [OperatorItem(op)], t);
    assert [WordItem(key)] + [OperatorItem(op)] == [WordItem(key), OperatorItem(op)];
  }

  lemma RequirementStep(r: Requirement, t: string)
    requires WellFormed(r) && Boundary(t)
    ensures Lexes(PrintRequirement(r), RequirementTokens(r), t)
  {
    ValuesStep(r.values, t);
    KeyStep(r.key, r.operator, PrintValues(r.values) + t);
    Then(r.key + PrintOperator(r.operator), [WordItem(r.key), OperatorItem(r.operator)],
         PrintValues(r.values), ValuesTokens(r.values), t);
  }

  lemma PrintMore(rs: seq<Requirement>)
    requires |rs| > 1
    ensures Print(rs) == PrintRequirement(rs[0]) + "," + Print(rs[1..])
  {
    assert Prints(rs)[1..] == Prints(rs[1..]);
    assert |Prints(rs[1..])| > 0;
  }

  lemma PrintStarts(rs: seq<Requirement>)
    requires |rs| > 0 && ValidKey(rs[0].key)
    ensures NoZero(Print(rs))
  {
    KeyIsWord(rs[0].key);
    assert PrintRequirement(rs[0])[0] == rs[0].key[0];
    if |rs| > 1 { PrintMore(rs); } else { assert Prints(rs) == [PrintRequirement(rs[0])]; }
  }

  lemma {:induction false} SelectorStep(rs: seq<Requirement>)
    requires forall i | 0 <= i < |rs| :: WellFormed(rs[i])
    ensures Tokenize(Print(rs)) == SelectorTokens(rs)
  {
    assert Tokenize("") == [EndItem];
    if |rs| == 1 {
      assert Prints(rs) == [PrintRequirement(rs[0])];
      assert PrintRequirement(rs[0]) + "" == PrintRequirement(rs[0]);
      RequirementStep(rs[0], "");
    } else if |rs| > 1 {
      SelectorStep(rs[1..]);
      SelectorMore(rs);
    }
  }

  lemma {:induction false} SelectorMore(rs: seq<Requirement>)
    requires |rs| > 1 && WellFormed(rs[0]) && ValidKey(rs[1].key)
    requires Tokenize(Print(rs[1..])) == SelectorTokens(rs[1..])
    ensures Tokenize(Print(rs)) == SelectorTokens(rs)
  {
    var more := Print(rs[1..]);
    PrintMore(rs);
    PrintStarts(rs[1..]);
    SymbolStep(",", more);
    RequirementStep(rs[0], "," + more);
    Then(PrintRequirement(rs[0]), RequirementTokens(rs[0]), ",", [CommaItem], more);
  }

  // ---- Parsing the tokens ----

  lemma {:induction false} LessOrders(a: string, b: string)
    requires Less(a, b)
    ensures a != b && !Less(b, a)
  {
    if a != "" && a[0] == b[0] { LessOrders(a[1..], b[1..]); }
  }

  /** Inserting behind everything smaller appends. */
  lemma {:induction false} InsertLast(l: seq<string>, s: string)
    requires Sorted(l + [s])
    ensures Insert(l, s) == l + [s]
  {
    if l != [] {
      assert (l + [s])[0] == l[0] && (l + [s])[|l|] == s;
      LessOrders(l[0], s);
      assert (l + [s])[1..] == l[1..] + [s];
      InsertLast(l[1..], s);
    }
  }

  /** A list in order without its repetitions. */
  function Dedup(vs: seq<string>): seq<string> {
    var n := |vs| - 1;
    if vs == [] then []
    else if n > 0 && vs[n] == vs[n - 1] then Dedup(vs[..n])
    else Dedup(vs[..n]) + [vs[n]]
  }

  lemma {:induction false} DedupSorted(vs: seq<string>)
    requires InOrder(vs)
    ensures Sorted(Dedup(vs)) && (vs != [] ==> Dedup(vs) != [] && Dedup(vs)[|Dedup(vs)| - 1] == vs[|vs| - 1])
    ensures forall i | 0 <= i < |Dedup(vs)| :: Dedup(vs)[i] in vs
  {
    if vs != [] {
      var n := |vs| - 1;
      DedupSorted(vs[..n]);
      if n == 0 || vs[n] != vs[n - 1] {
        var done := Dedup(vs[..n]);
        forall i | 0 <= i < |done| ensures Less(done[i], vs[n]) {
          assert done[i] in vs[..n];
          var k :| 0 <= k < n && vs[k] == done[i];
          if k < n - 1 && vs[k] != vs[n - 1] { LessBetween(vs[k], vs[n - 1], vs[n]); }
        }
      }
    }
  }

  lemma {:induction false} LessBetween(a: string, b: string, c: string)
    requires Less(a, b) && Less(b, c)
    ensures Less(a, c)
  {
    if a != "" && a[0] == b[0] && b[0] == c[0] { LessBetween(a[1..], b[1..], c[1..]); }
  }

  lemma {:induction false} LessTotal(a: string, b: string)
    ensures a == b || Less(a, b) || Less(b, a)
  {
    if a != "" && b != "" && a[0] == b[0] {
      LessTotal(a[1..], b[1..]);
      assert a == [a[0]] + a[1..] && b == [b[0]] + b[1..];
    }
  }

  /** Inserting keeps the list sorted and adds the one string. */
  lemma {:induction false} InsertSorts(l: seq<string>, s: string)
    requires Sorted(l)
    ensures Sorted(Insert(l, s)) && (forall x :: x in Insert(l, s) <==> x == s || x in l)
  {
    if l != [] {
      var head, rest := l[0], l[1..];
      assert l == [head] + rest;
      LessTotal(s, head);
      if Less(s, head) && s != head {
        forall i | 0 <= i < |rest| ensures Less(s, rest[i]) { LessBetween(s, head, l[i + 1]); }
      } else if s != head {
        InsertSorts(rest, s);
        var more := Insert(rest, s);
        forall i | 0 <= i < |more| ensures Less(head, more[i]) {
          assert more[i] in Insert(rest, s);
          if more[i] != s {
            var j :| 0 <= j < |rest| && rest[j] == more[i];
            assert l[j + 1] == more[i];
          }
        }
      }
    }
  }

  /** Inserting the last of a list again changes nothing. */
  lemma {:induction false} InsertPresent(l: seq<string>, s: string)
    requires Sorted(l) && l != [] && l[|l| - 1] == s
    ensures Insert(l, s) == l
  {
    if |l| > 1 {
      assert Less(l[0], s);
      LessOrders(l[0], s);
      InsertPresent(l[1..], s);
      assert l == [l[0]] + l[1..];
    }
  }

  lemma InsertNext(vs: seq<string>, i: nat)
    requires i < |vs| && InOrder(vs)
    ensures Insert(Dedup(vs[..i]), vs[i]) == Dedup(vs[..i + 1])
  {
    var done := vs[..i];
    assert vs[..i + 1][..i] == done;
    DedupSorted(done);
    DedupSorted(vs[..i + 1]);
    if i > 0 && vs[i] == vs[i - 1] {
      InsertPresent(Dedup(done), vs[i]);
    } else {
      InsertLast(Dedup(done), vs[i]);
    }
  }

  lemma Prepended(item: Item, ts: Tokens)
    ensures Head([item] + ts) == item && Tail([item] + ts) == ts
  {
  }

  lemma ValueIsWord(v: string)
    requires ValidValue(v) && v != ""
    ensures ValueTokens(v) == [WordItem(v)] && IsWord(WordItem(v).tok)
  {
    assert IsAlnum(v[0]);
  }

  /** A word and the comma after it, in front of another word. */
  lemma WordAndComma(v: string, more: Tokens, acc: seq<string>)
    requires ValidValue(v) && v != "" && IsWord(Head(more).tok)
    ensures IdentifierList([WordItem(v)] + ([CommaItem] + more), acc) == IdentifierList(more, Insert(acc, v))
  {
    ValueIsWord(v);
    Prepended(CommaItem, more);
    Prepended(WordItem(v), [CommaItem] + more);
    assert Insert(acc, v) != [];
  }

  /** From the first value that is not empty on, every value is a word. */
  lemma {:induction false} IdentifierListParses(vs: seq<string>, i: nat, rest: Tokens)
    requires InOrder(vs) && (forall k | 0 <= k < |vs| :: ValidValue(vs[k]))
    requires i < |vs| && vs[i] != "" && Head(rest).tok == ClosedPar
    ensures IsWord(Head(ListTokens(vs[i..]) + rest).tok)
    ensures IdentifierList(ListTokens(vs[i..]) + rest, Dedup(vs[..i])) == Ok((Dedup(vs), rest))
    decreases |vs| - i
  {
    var w := WordItem(vs[i]);
    ValueIsWord(vs[i]);
    InsertNext(vs, i);
    if i == |vs| - 1 {
      assert ListTokens(vs[i..]) == [w];
      Prepended(w, rest);
      assert vs[..i + 1] == vs;
    } else {
      var more := ListTokens(vs[i + 1..]) + rest;
      assert vs[i + 1] != "";
      IdentifierListParses(vs, i + 1, rest);
      WordAndComma(vs[i], more, Dedup(vs[..i]));
      ListTokensFrom(vs, i, rest);
    }
  }

  lemma ListTokensFrom(vs: seq<string>, i: nat, rest: Tokens)
    requires i < |vs| - 1 && vs[i] != ""
    ensures ListTokens(vs[i..]) + rest == [WordItem(vs[i])] + ([CommaItem] + (ListTokens(vs[i + 1..]) + rest))
  {
    assert vs[i..][0] == vs[i] && vs[i..][1..] == vs[i + 1..];
    assert ListTokens(vs[i..]) == [WordItem(vs[i])] + [CommaItem] + ListTokens(vs[i + 1..]);
  }

  /** An empty value in front of others is only the comma after it. */
  lemma EmptyFirst(vs: seq<string>, i: nat, rest: Tokens)
    requires i < |vs| - 1 && vs[i] == ""
    ensures ListTokens(vs[i..]) + rest == [CommaItem] + (ListTokens(vs[i + 1..]) + rest)
  {
    assert vs[i..][0] == vs[i] && vs[i..][1..] == vs[i + 1..];
    assert ListTokens(vs[i..]) == [CommaItem] + ListTokens(vs[i + 1..]);
  }

  predicate AllEmpty(vs: seq<string>) {
    forall i | 0 <= i < |vs| :: vs[i] == ""
  }

  /** However many empty values there are, they make one. */
  lemma {:induction false} DedupEmpties(vs: seq<string>)
    requires AllEmpty(vs) && vs != []
    ensures Dedup(vs) == [""]
  {
    var n := |vs| - 1;
    if n > 0 { DedupEmpties(vs[..n]); } else { assert Dedup(vs[..0]) == []; }
  }

  lemma EmptiesBefore(vs: seq<string>, i: nat)
    requires InOrder(vs) && i < |vs| && vs[i] == ""
    ensures AllEmpty(vs[..i + 1]) && Dedup(vs[..i + 1]) == [""]
  {
    var front := vs[..i + 1];
    forall k | 0 <= k < |front| ensures front[k] == "" { assert front[k] == vs[k]; }
    DedupEmpties(front);
  }

  /** The step of the parser on two commas and on one. */
  lemma CommaSteps(more: Tokens, acc: seq<string>)
    requires acc == [] || acc == [""]
    ensures var ts := [CommaItem] + more;
            && (Head(more).tok == ClosedPar ==> IdentifierList(ts, acc) == Ok(([""], more)))
            && (Head(more).tok == Comma ==> IdentifierList(ts, acc) == IdentifierList(Tail(more), [""]))
            && (IsWord(Head(more).tok) ==> IdentifierList(ts, acc) == IdentifierList(more, [""]))
  {
    Prepended(CommaItem, more);
    assert Insert([], "") == [""] && Insert([""], "") == [""];
  }

  /** The tokens of the values from `i` on, and what follows them. */
  function From(vs: seq<string>, i: nat, rest: Tokens): Tokens
    requires i <= |vs|
  {
    ListTokens(vs[i..]) + rest
  }

  ghost predicate ValidList(vs: seq<string>, rest: Tokens) {
    InOrder(vs) && (forall k | 0 <= k < |vs| :: ValidValue(vs[k])) && Head(rest).tok == ClosedPar
  }

  /** What is parsed when the values before `i` are empty: nothing from empty values only, an odd number of them. */
  function Expected(vs: seq<string>, i: nat, rest: Tokens): Result<(seq<string>, Tokens)>
    requires i <= |vs|
  {
    if AllEmpty(vs) && (|vs| - i) % 2 == 1 then Err else Ok((Dedup(vs), rest))
  }

  function SoFar(i: nat): seq<string> {
    if i == 0 then [] else [""]
  }

  lemma AtWord(vs: seq<string>, i: nat, rest: Tokens)
    requires ValidList(vs, rest) && i < |vs| && vs[i] != "" && (i > 0 ==> vs[i - 1] == "")
    ensures IsWord(Head(From(vs, i, rest)).tok)
    ensures IdentifierList(From(vs, i, rest), SoFar(i)) == Ok((Dedup(vs), rest))
  {
    SoFarIs(vs, i);
    IdentifierListParses(vs, i, rest);
  }

  lemma SoFarIs(vs: seq<string>, i: nat)
    requires InOrder(vs) && i < |vs| && (i > 0 ==> vs[i - 1] == "")
    ensures SoFar(i) == Dedup(vs[..i])
  {
    if i > 0 { EmptiesBefore(vs, i - 1); } else { assert Dedup(vs[..0]) == []; }
  }

  lemma NotAllEmpty(vs: seq<string>, i: nat, j: nat, rest: Tokens)
    requires i < |vs| && vs[i] != "" && j <= |vs|
    ensures Expected(vs, j, rest) == Ok((Dedup(vs), rest))
  {
  }

  lemma ExpectedTwo(vs: seq<string>, i: nat, rest: Tokens)
    requires i + 2 <= |vs|
    ensures Expected(vs, i, rest) == Expected(vs, i + 2, rest)
  {
    var n: nat := |vs| - i;
    assert n == n - 2 + 2;
    assert n % 2 == (n - 2) % 2;
  }

  /** Nothing is printed for the last value if it is empty, and the parser expects no parenthesis there. */
  lemma AtLastEmpty(vs: seq<string>, rest: Tokens)
    requires ValidList(vs, rest) && |vs| > 1 && vs[|vs| - 1] == ""
    ensures From(vs, |vs| - 1, rest) == rest && IdentifierList(rest, [""]) == Err && Expected(vs, |vs| - 1, rest) == Err
  {
    var n := |vs| - 1;
    assert ListTokens(vs[n..]) == [];
    EmptiesBefore(vs, n);
    assert vs[..n + 1] == vs;
  }

  lemma EmptyThenWord(vs: seq<string>, i: nat, rest: Tokens)
    requires ValidList(vs, rest) && i < |vs| - 1 && vs[i] == "" && vs[i + 1] != ""
    ensures IdentifierList(From(vs, i, rest), SoFar(i)) == Ok((Dedup(vs), rest))
  {
    EmptyFirst(vs, i, rest);
    AtWord(vs, i + 1, rest);
    CommaSteps(From(vs, i + 1, rest), SoFar(i));
  }

  lemma EmptyThenEnd(vs: seq<string>, i: nat, rest: Tokens)
    requires ValidList(vs, rest) && i == |vs| - 2 && vs[i] == "" && vs[i + 1] == ""
    ensures IdentifierList(From(vs, i, rest), SoFar(i)) == Ok((Dedup(vs), rest))
  {
    EmptyFirst(vs, i, rest);
    AtLastEmpty(vs, rest);
    CommaSteps(rest, SoFar(i));
    EmptiesBefore(vs, i + 1);
    assert vs[..i + 2] == vs;
  }

  lemma TwoEmpties(vs: seq<string>, i: nat, rest: Tokens)
    requires ValidList(vs, rest) && i < |vs| - 2 && vs[i] == "" && vs[i + 1] == ""
    ensures IdentifierList(From(vs, i, rest), SoFar(i)) == IdentifierList(From(vs, i + 2, rest), [""])
  {
    var more := From(vs, i + 2, rest);
    EmptyFirst(vs, i, rest);
    EmptyFirst(vs, i + 1, rest);
    Prepended(CommaItem, more);
    CommaSteps([CommaItem] + more, SoFar(i));
  }

  /** A list that starts with empty values: their commas are taken in pairs. */
  lemma {:induction false} EmptiesParse(vs: seq<string>, i: nat, rest: Tokens)
    requires ValidList(vs, rest) && |vs| > 1 && i < |vs| && (i > 0 ==> vs[i - 1] == "")
    ensures IdentifierList(From(vs, i, rest), SoFar(i)) == Expected(vs, i, rest)
    decreases |vs| - i
  {
    if vs[i] != "" {
      AtWord(vs, i, rest);
      NotAllEmpty(vs, i, i, rest);
    } else if i == |vs| - 1 {
      AtLastEmpty(vs, rest);
    } else if vs[i + 1] != "" {
      EmptyThenWord(vs, i, rest);
      NotAllEmpty(vs, i + 1, i, rest);
    } else if i == |vs| - 2 {
      EmptyThenEnd(vs, i, rest);
    } else {
      TwoEmpties(vs, i, rest);
      EmptiesParse(vs, i + 2, rest);
      ExpectedTwo(vs, i, rest);
    }
  }

  /** The values of a set that can be parsed: not empty values only, an odd number of them. */
  predicate Listable(vs: seq<string>) {
    |vs| >= 2 && !(AllEmpty(vs) && |vs| % 2 == 1)
  }

  lemma ListParses(vs: seq<string>, rest: Tokens)
    requires InOrder(vs) && (forall k | 0 <= k < |vs| :: ValidValue(vs[k]))
    requires |vs| >= 2 && Head(rest).tok == ClosedPar
    ensures var t := Head(ListTokens(vs) + rest).tok; IsWord(t) || t == Comma
    ensures IdentifierList(ListTokens(vs) + rest, []) == if Listable(vs) then Ok((Dedup(vs), rest)) else Err
  {
    assert From(vs, 0, rest) == ListTokens(vs) + rest by { assert vs[0..] == vs; }
    EmptiesParse(vs, 0, rest);
    if vs[0] != "" {
      AtWord(vs, 0, rest);
    } else {
      EmptyFirst(vs, 0, rest);
      Prepended(CommaItem, From(vs, 1, rest));
    }
  }

  lemma ValuesParse(vs: seq<string>, rest: Tokens)
    requires InOrder(vs) && |vs| >= 2 && (forall k | 0 <= k < |vs| :: ValidValue(vs[k]))
    ensures ParseValues(ValuesTokens(vs) + rest) == if Listable(vs) then Ok((Dedup(vs), rest)) else Err
  {
    var open, close := Item(OpenPar, "("), Item(ClosedPar, ")");
    Prepended(close, rest);
    ListParses(vs, [close] + rest);
    Prepended(open, ListTokens(vs) + ([close] + rest));
    ValuesParts(vs, rest);
  }

  lemma ValuesParts(vs: seq<string>, rest: Tokens)
    requires |vs| >= 2
    ensures ValuesTokens(vs) + rest == [Item(OpenPar, "(")] + (ListTokens(vs) + ([Item(ClosedPar, ")")] + rest))
  {
  }

  /** A requirement whose print is parsed: an exact value is not empty, a set has several values. */
  predicate Parseable(r: Requirement) {
    if r.operator == Equals || r.operator == NotEquals then r.values != [""] else Listable(r.values)
  }

  /** A requirement that comes back as it was: its values are also distinct. */
  ghost predicate Printable(r: Requirement) {
    Parseable(r) && NoneRepeated(r.values)
  }

  /** The requirement that comes back: each value once. */
  function Reparsed(r: Requirement): Requirement {
    r.(values := Dedup(r.values))
  }

  /** A single value is printed bare, which only the exact operators read. */
  lemma SingleParses(op: Operator, v: string, rest: Tokens)
    requires ValidValue(v) && (Head(rest).tok == Comma || Head(rest).tok == EndOfString)
    ensures ParseOperand(op, ValueTokens(v) + rest) ==
            if (op == Equals || op == NotEquals) && v != "" then Ok(([v], rest)) else Err
  {
    if v == "" {
      assert ValueTokens(v) + rest == rest;
    } else {
      ValueIsWord(v);
      Prepended(WordItem(v), rest);
    }
  }

  lemma DedupOne(v: string)
    ensures Dedup([v]) == [v]
  {
    assert [v][..0] == [] && Dedup([]) == [];
    assert [] + [v] == [v];
  }

  /** What follows the operator: parsed back without repetitions, or refused. */
  lemma OperandParses(r: Requirement, rest: Tokens)
    requires WellFormed(r) && (Head(rest).tok == Comma || Head(rest).tok == EndOfString)
    ensures ParseOperand(r.operator, ValuesTokens(r.values) + rest) ==
            if Parseable(r) then Ok((Dedup(r.values), rest)) else Err
  {
    if |r.values| == 1 {
      var v := r.values[0];
      assert r.values == [v];
      DedupOne(v);
      SingleParses(r.operator, v, rest);
    } else {
      ValuesParse(r.values, rest);
    }
  }

  lemma KeyWordToken(key: string)
    requires ValidKey(key)
    ensures IsWord(WordItem(key).tok) && WordItem(key).literal == key
  {
    KeyIsWord(key);
  }

  lemma OperatorTokens(key: string, op: Operator, ts: Tokens)
    requires ValidKey(key)
    ensures var all := [WordItem(key)] + ([OperatorItem(op)] + ts);
            && Head(all) == WordItem(key) && IsWord(Head(all).tok) && Head(all).literal == key
            && OperatorOf(Head(Tail(all)).tok) == Ok(op) && Tail(Tail(all)) == ts
  {
    KeyWordToken(key);
    Prepended(OperatorItem(op), ts);
    Prepended(WordItem(key), [OperatorItem(op)] + ts);
  }

  lemma {:induction false} SortedAlready(vs: seq<string>)
    requires InOrder(vs)
    ensures SortValues(vs) == vs
  {
    if vs != [] {
      SortedAlready(vs[1..]);
      assert vs == [vs[0]] + vs[1..];
    }
  }

  lemma {:induction false} DedupCount(vs: seq<string>)
    requires vs != []
    ensures 1 <= |Dedup(vs)| <= |vs|
  {
    if |vs| > 1 { DedupCount(vs[..|vs| - 1]); } else { assert Dedup(vs[..0]) == []; }
  }

  /** The constructor accepts what it makes, unchanged, and also without the repetitions. */
  lemma MadeAgain(r: Requirement)
    requires WellFormed(r)
    ensures NewRequirement(r.key, r.operator, r.values) == Ok(r)
    ensures WellFormed(Reparsed(r)) && NewRequirement(r.key, r.operator, Dedup(r.values)) == Ok(Reparsed(r))
  {
    SortedAlready(r.values);
    DedupSorted(r.values);
    DedupCount(r.values);
    SortedAlready(Dedup(r.values));
    forall i | 0 <= i < |Dedup(r.values)| ensures ValidValue(Dedup(r.values)[i]) {
      assert Dedup(r.values)[i] in r.values;
    }
  }

  lemma KeyThenOperand(ts: Tokens, op: Operator)
    requires IsWord(Head(ts).tok) && ValidKey(Head(ts).literal) && OperatorOf(Head(Tail(ts)).tok) == Ok(op)
    ensures var operand := ParseOperand(op, Tail(Tail(ts)));
            && (operand.Err? ==> ParseRequirement(ts) == Err)
            && (operand.Ok? ==> var r := NewRequirement(Head(ts).literal, op, operand.value.0);
                  ParseRequirement(ts) == if r.Ok? then Ok((r.value, operand.value.1)) else Err)
  {
  }

  lemma RequirementParses(r: Requirement, rest: Tokens)
    requires WellFormed(r) && (Head(rest).tok == Comma || Head(rest).tok == EndOfString)
    ensures IsWord(Head(RequirementTokens(r) + rest).tok)
    ensures ParseRequirement(RequirementTokens(r) + rest) == if Parseable(r) then Ok((Reparsed(r), rest)) else Err
  {
    var key, op, values := WordItem(r.key), OperatorItem(r.operator), ValuesTokens(r.values) + rest;
    OperandParses(r, rest);
    OperatorTokens(r.key, r.operator, values);
    MadeAgain(r);
    RequirementParts(r, rest);
    KeyThenOperand([key] + ([op] + values), r.operator);
  }

  lemma RequirementParts(r: Requirement, rest: Tokens)
    ensures RequirementTokens(r) + rest == [WordItem(r.key)] + ([OperatorItem(r.operator)] + (ValuesTokens(r.values) + rest))
  {
  }

  function AllReparsed(rs: seq<Requirement>): seq<Requirement> {
    if rs == [] then [] else [Reparsed(rs[0])] + AllReparsed(rs[1..])
  }

  lemma {:induction false} SelectorParses(rs: seq<Requirement>)
    requires forall i | 0 <= i < |rs| :: WellFormed(rs[i])
    ensures rs != [] ==> IsWord(Head(SelectorTokens(rs)).tok)
    ensures ParseAll(SelectorTokens(rs)) == if forall i | 0 <= i < |rs| :: Parseable(rs[i]) then Ok(AllReparsed(rs)) else Err
  {
    if |rs| == 1 {
      RequirementParses(rs[0], [EndItem]);
      assert AllReparsed(rs[1..]) == [] && AllReparsed(rs) == [Reparsed(rs[0])];
    } else if |rs| > 1 {
      SelectorParses(rs[1..]);
      OneMoreParses(rs);
      assert (forall i | 0 <= i < |rs| :: Parseable(rs[i]))
             <==> Parseable(rs[0]) && (forall i | 0 <= i < |rs[1..]| :: Parseable(rs[1..][i]));
    }
  }

  lemma {:induction false} OneMoreParses(rs: seq<Requirement>)
    requires |rs| > 1 && WellFormed(rs[0]) && IsWord(Head(SelectorTokens(rs[1..])).tok)
    requires ParseAll(SelectorTokens(rs[1..])) == Ok(AllReparsed(rs[1..])) || ParseAll(SelectorTokens(rs[1..])) == Err
    ensures IsWord(Head(SelectorTokens(rs)).tok)
    ensures ParseAll(SelectorTokens(rs)) ==
            if Parseable(rs[0]) && ParseAll(SelectorTokens(rs[1..])).Ok? then Ok(AllReparsed(rs)) else Err
  {
    var more := SelectorTokens(rs[1..]);
    Prepended(CommaItem, more);
    RequirementParses(rs[0], [CommaItem] + more);
    SelectorTokensFrom(rs);
  }

  lemma SelectorTokensFrom(rs: seq<Requirement>)
    requires |rs| > 1
    ensures SelectorTokens(rs) == RequirementTokens(rs[0]) + ([CommaItem] + SelectorTokens(rs[1..]))
  {
  }

  ghost predicate NoneRepeated(vs: seq<string>) {
    forall i, j | 0 <= i < j < |vs| :: vs[i] != vs[j]
  }

  /** In a list in order only neighbours need to be compared. */
  lemma NoneRepeatedNext(vs: seq<string>)
    requires InOrder(vs) && |vs| > 1
    ensures NoneRepeated(vs) <==> NoneRepeated(vs[..|vs| - 1]) && vs[|vs| - 1] != vs[|vs| - 2]
  {
    var n := |vs| - 1;
    if NoneRepeated(vs) {
      forall i, j | 0 <= i < j < n ensures vs[..n][i] != vs[..n][j] { assert vs[i] != vs[j]; }
    }
    if NoneRepeated(vs[..n]) && vs[n] != vs[n - 1] {
      forall i | 0 <= i < n ensures vs[i] != vs[n] {
        if vs[i] == vs[n] && i < n - 1 { LessOrders(vs[n - 1], vs[n]); }
      }
      forall i, j | 0 <= i < j < |vs| ensures vs[i] != vs[j] {
        if j < n { assert vs[..n][i] != vs[..n][j]; }
      }
    }
  }

  lemma SameFront(a: seq<string>, b: seq<string>, x: string)
    ensures a + [x] == b + [x] <==> a == b
  {
    if a + [x] == b + [x] {
      assert |a| == |b| && a == (a + [x])[..|a|] && b == (b + [x])[..|b|];
    }
  }

  lemma DedupSameNext(vs: seq<string>)
    requires |vs| > 1
    ensures Dedup(vs) == vs <==> Dedup(vs[..|vs| - 1]) == vs[..|vs| - 1] && vs[|vs| - 1] != vs[|vs| - 2]
  {
    var front, last := vs[..|vs| - 1], vs[|vs| - 1];
    assert vs == front + [last];
    DedupCount(front);
    SameFront(Dedup(front), front, last);
  }

  /** Values in order come back unchanged exactly if none is repeated. */
  lemma {:induction false} DedupSameIff(vs: seq<string>)
    requires InOrder(vs)
    ensures Dedup(vs) == vs <==> NoneRepeated(vs)
  {
    if |vs| == 1 {
      DedupOne(vs[0]);
      assert vs == [vs[0]];
    } else if |vs| > 1 {
      DedupSameIff(vs[..|vs| - 1]);
      DedupSameNext(vs);
      NoneRepeatedNext(vs);
    }
  }

  lemma {:induction false} ReparsedSameIff(rs: seq<Requirement>)
    requires forall i | 0 <= i < |rs| :: WellFormed(rs[i])
    ensures |AllReparsed(rs)| == |rs|
    ensures AllReparsed(rs) == rs <==> forall i | 0 <= i < |rs| :: Dedup(rs[i].values) == rs[i].values
  {
    if rs != [] {
      ReparsedSameIff(rs[1..]);
      assert rs == [rs[0]] + rs[1..];
      assert Reparsed(rs[0]) == rs[0] <==> Dedup(rs[0].values) == rs[0].values;
    }
  }

  /**
   The round trip, for every selector of requirements the constructor can make. Its print is
   refused exactly if an exact match has the empty value, a set match one value, or a set
   match an odd number of empty values and no other; otherwise it is parsed with each value
   once, which is the selector itself exactly if no value is repeated.
   */
  lemma RoundTripIff(rs: seq<Requirement>)
    requires forall i | 0 <= i < |rs| :: WellFormed(rs[i])
    ensures ParseText(Print(rs)) == if forall i | 0 <= i < |rs| :: Parseable(rs[i]) then Ok(AllReparsed(rs)) else Err
    ensures ParseText(Print(rs)) == Ok(rs) <==> forall i | 0 <= i < |rs| :: Printable(rs[i])
  {
    SelectorStep(rs);
    SelectorParses(rs);
    ReparsedSameIff(rs);
    forall i | 0 <= i < |rs|
      ensures Printable(rs[i]) <==> Parseable(rs[i]) && Dedup(rs[i].values) == rs[i].values
    {
      DedupSameIff(rs[i].values);
    }
  }

  /** Dropping repetitions keeps keys and form. */
  lemma {:induction false} ReparsedAt(rs: seq<Requirement>, i: nat)
    requires i < |rs|
    ensures |AllReparsed(rs)| == |rs| && AllReparsed(rs)[i] == Reparsed(rs[i])
  {
    if i > 0 { ReparsedAt(rs[1..], i - 1); } else if |rs| > 1 { ReparsedAt(rs[1..], 0); }
  }

  lemma ReparsedOk(rs: seq<Requirement>)
    requires SelectorOk(rs)
    ensures SelectorOk(AllReparsed(rs))
  {
    var rs' := AllReparsed(rs);
    ReparsedSameIff(rs);
    forall i | 0 <= i < |rs'| ensures WellFormed(rs'[i]) && rs'[i].key == rs[i].key {
      ReparsedAt(rs, i);
      MadeAgain(rs[i]);
    }
  }

  lemma ReparsedOne(r: Requirement)
    ensures AllReparsed([r]) == [Reparsed(r)]
    ensures (forall i | 0 <= i < |[r]| :: Parseable([r][i])) <==> Parseable(r)
  {
    assert [r][1..] == [] && AllReparsed([r][1..]) == [] && [r][0] == r;
  }

  lemma OneRequirement(r: Requirement)
    requires WellFormed(r)
    ensures ParseText(Print([r])) == if Parseable(r) then Ok([Reparsed(r)]) else Err
  {
    RoundTripIff([r]);
    ReparsedOne(r);
  }

  /** Under any key: a set match of one value is refused. */
  lemma SingleValueRefused(key: string, v: string, op: Operator)
    requires ValidKey(key) && ValidValue(v) && (op == In || op == NotIn)
    ensures ParseText(Print([Requirement(key, op, [v])])) == Err
  {
    OneRequirement(Requirement(key, op, [v]));
  }

  /** Under any key: an exact match of the empty value is refused. */
  lemma EmptyValueRefused(key: string, op: Operator)
    requires ValidKey(key) && (op == Equals || op == NotEquals)
    ensures ParseText(Print([Requirement(key, op, [""])])) == Err
  {
    OneRequirement(Requirement(key, op, [""]));
  }

  /** Under any key: an odd number of empty values, and no other, is refused. */
  lemma OddEmptiesRefused(key: string, op: Operator, vs: seq<string>)
    requires ValidKey(key) && (op == In || op == NotIn) && AllEmpty(vs) && |vs| % 2 == 1
    ensures ParseText(Print([Requirement(key, op, vs)])) == Err
  {
    OneRequirement(Requirement(key, op, vs));
  }

  /** Under any key: a value given twice comes back once. */
  lemma RepeatedValueExample(key: string, v: string, op: Operator)
    requires ValidKey(key) && ValidValue(v) && (op == In || op == NotIn)
    ensures ParseText(Print([Requirement(key, op, [v, v])])) == Ok([Requirement(key, op, [v])])
  {
    TwiceReparsed(key, v, op);
    OneRequirement(Requirement(key, op, [v, v]));
  }

  lemma TwiceReparsed(key: string, v: string, op: Operator)
    requires ValidKey(key) && ValidValue(v) && (op == In || op == NotIn)
    ensures var r := Requirement(key, op, [v, v]);
            WellFormed(r) && Parseable(r) && Reparsed(r) == Requirement(key, op, [v])
  {
    assert [v, v][..1] == [v];
    DedupOne(v);
  }
}
