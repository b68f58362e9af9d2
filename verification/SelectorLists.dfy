/**
 Sets of values as they may be written: in any order, with empty values anywhere. What the
 parser makes of them, and which of them it refuses.
 */
module SelectorLists {
  import opened SelectorModel
  import opened SelectorRoundTrip

  /** The values as a set: sorted, each once. */
  function Collect(vs: seq<string>): seq<string> {
    if vs == [] then [] else Insert(Collect(vs[..|vs| - 1]), vs[|vs| - 1])
  }

  lemma {:induction false} CollectIsSet(vs: seq<string>)
    ensures Sorted(Collect(vs)) && (forall x :: x in Collect(vs) <==> x in vs)
    ensures vs != [] ==> Collect(vs) != []
  {
    if vs != [] {
      var n := |vs| - 1;
      CollectIsSet(vs[..n]);
      InsertSorts(Collect(vs[..n]), vs[n]);
      assert vs == vs[..n] + [vs[n]];
      assert vs[n] in Insert(Collect(vs[..n]), vs[n]);
    }
  }

  lemma CollectNext(vs: seq<string>, i: nat)
    requires i < |vs|
    ensures Collect(vs[..i + 1]) == Insert(Collect(vs[..i]), vs[i]) && Collect(vs[..i + 1]) != []
  {
    assert vs[..i + 1][..i] == vs[..i];
    CollectIsSet(vs[..i + 1]);
  }

  lemma {:induction false} InsertAgain(l: seq<string>, s: string)
    requires Sorted(l) && s in l
    ensures Insert(l, s) == l
  {
    if s != l[0] {
      var i :| 0 < i < |l| && l[i] == s;
      assert Less(l[0], s) && l[1..][i - 1] == s;
      LessOrders(l[0], s);
      InsertAgain(l[1..], s);
      assert l == [l[0]] + l[1..];
    }
  }

  /** An empty value behind another empty one adds nothing. */
  lemma EmptyAgain(vs: seq<string>, i: nat)
    requires 0 < i < |vs| && vs[i] == "" && vs[i - 1] == ""
    ensures Collect(vs[..i + 1]) == Collect(vs[..i])
  {
    CollectIsSet(vs[..i]);
    assert vs[..i][i - 1] == "";
    CollectNext(vs, i);
    InsertAgain(Collect(vs[..i]), "");
  }

  // ---- Empty values at the end ----

  function TrailingEmpties(vs: seq<string>): nat {
    if vs == [] || vs[|vs| - 1] != "" then 0 else 1 + TrailingEmpties(vs[..|vs| - 1])
  }

  lemma {:induction false} TrailingFrom(v: string, vs: seq<string>)
    ensures TrailingEmpties([v] + vs) == if v == "" && AllEmpty(vs) then |vs| + 1 else TrailingEmpties(vs)
    ensures AllEmpty(vs) <==> TrailingEmpties(vs) == |vs|
  {
    if vs == [] {
      assert [v] + vs == [v] && [v][..0] == [];
    } else {
      var n := |vs| - 1;
      assert ([v] + vs)[..|vs|] == [v] + vs[..n];
      TrailingFrom(v, vs[..n]);
      assert AllEmpty(vs) <==> AllEmpty(vs[..n]) && vs[n] == "";
      TrailingAtMost(vs);
    }
  }

  lemma {:induction false} TrailingAtMost(vs: seq<string>)
    ensures TrailingEmpties(vs) <= |vs|
  {
    if vs != [] { TrailingAtMost(vs[..|vs| - 1]); }
  }

  /** Commas are taken in pairs, so that an even number of them in front of the end leaves none to see the end. */
  predicate Dangling(vs: seq<string>) {
    TrailingEmpties(vs) > 0 && TrailingEmpties(vs) % 2 == 0
  }

  lemma DanglingBehindWord(vs: seq<string>, i: nat)
    requires i < |vs| && vs[i] != ""
    ensures Dangling(vs[i..]) <==> Dangling(vs[i + 1..])
  {
    assert vs[i..] == [vs[i]] + vs[i + 1..];
    TrailingFrom(vs[i], vs[i + 1..]);
  }

  lemma DanglingBehindEmpty(vs: seq<string>, i: nat)
    requires i + 1 < |vs| && vs[i] == "" && vs[i + 1] != ""
    ensures Dangling(vs[i..]) <==> Dangling(vs[i + 1..])
  {
    assert vs[i..] == [vs[i]] + vs[i + 1..];
    assert vs[i + 1..][0] == vs[i + 1] && !AllEmpty(vs[i + 1..]);
    TrailingFrom(vs[i], vs[i + 1..]);
  }

  lemma DanglingBehindTwo(vs: seq<string>, i: nat)
    requires i + 1 < |vs| && vs[i] == "" && vs[i + 1] == ""
    ensures Dangling(vs[i..]) <==> i + 2 == |vs| || Dangling(vs[i + 2..])
  {
    var more := vs[i + 2..];
    assert vs[i..] == [vs[i]] + vs[i + 1..] && vs[i + 1..] == [vs[i + 1]] + more;
    TrailingFrom(vs[i], vs[i + 1..]);
    TrailingFrom(vs[i + 1], more);
    TwoMore(|more|);
    if more == [] { assert TrailingEmpties(vs[i..]) == 2; }
  }

  lemma TwoMore(n: nat)
    ensures (n + 2) % 2 == n % 2
  {
  }

  // ---- The parser, value by value ----

  ghost predicate ValidValues(vs: seq<string>) {
    forall k | 0 <= k < |vs| :: ValidValue(vs[k])
  }

  lemma LastWordAt(vs: seq<string>, i: nat, rest: Tokens)
    requires ValidValues(vs) && i + 1 == |vs| && vs[i] != "" && Head(rest).tok == ClosedPar
    ensures IsWord(Head(From(vs, i, rest)).tok)
    ensures IdentifierList(From(vs, i, rest), Collect(vs[..i])) == Ok((Collect(vs), rest))
  {
    ValueIsWord(vs[i]);
    CollectNext(vs, i);
    assert vs[i..] == [vs[i]] && vs[..i + 1] == vs;
    WordThenEnd(vs[i], rest, Collect(vs[..i]));
  }

  lemma WordThenEnd(v: string, rest: Tokens, acc: seq<string>)
    requires ValidValue(v) && v != "" && Head(rest).tok == ClosedPar
    ensures IsWord(Head([WordItem(v)] + rest).tok)
    ensures IdentifierList([WordItem(v)] + rest, acc) == Ok((Insert(acc, v), rest))
  {
    ValueIsWord(v);
    Prepended(WordItem(v), rest);
  }

  lemma WordThenComma(v: string, more: Tokens, acc: seq<string>)
    requires ValidValue(v) && v != ""
    ensures IsWord(Head([WordItem(v)] + ([CommaItem] + more)).tok)
    ensures IdentifierList([WordItem(v)] + ([CommaItem] + more), acc) == IdentifierList([CommaItem] + more, Insert(acc, v))
  {
    ValueIsWord(v);
    Prepended(CommaItem, more);
    Prepended(WordItem(v), [CommaItem] + more);
  }

  lemma WordStepAt(vs: seq<string>, i: nat, rest: Tokens)
    requires ValidValues(vs) && i < |vs| && vs[i] != "" && Head(rest).tok == ClosedPar
    ensures IsWord(Head(From(vs, i, rest)).tok)
    ensures IdentifierList(From(vs, i, rest), Collect(vs[..i])) ==
            if i == |vs| - 1 then Ok((Collect(vs), rest))
            else IdentifierList([CommaItem] + From(vs, i + 1, rest), Collect(vs[..i + 1]))
  {
    if i == |vs| - 1 {
      LastWordAt(vs, i, rest);
    } else {
      CollectNext(vs, i);
      ListTokensFrom(vs, i, rest);
      WordThenComma(vs[i], From(vs, i + 1, rest), Collect(vs[..i]));
    }
  }

  lemma CommaThenEnd(more: Tokens, acc: seq<string>)
    requires acc != [] && Head(more).tok == ClosedPar
    ensures IdentifierList([CommaItem] + more, acc) == Ok((Insert(acc, ""), more))
  {
    Prepended(CommaItem, more);
  }

  lemma CommaThenComma(more: Tokens, acc: seq<string>)
    requires acc != []
    ensures IdentifierList([CommaItem] + ([CommaItem] + more), acc) == IdentifierList(more, Insert(acc, ""))
  {
    Prepended(CommaItem, more);
    Prepended(CommaItem, [CommaItem] + more);
  }

  lemma CommaThenWord(more: Tokens, acc: seq<string>)
    requires acc != [] && IsWord(Head(more).tok)
    ensures IdentifierList([CommaItem] + more, acc) == IdentifierList(more, acc)
  {
    Prepended(CommaItem, more);
  }

  /** Where a list may be refused: at its last value, if that is empty and the comma before it is already taken. */
  function Outcome(vs: seq<string>, dangling: bool, rest: Tokens): Result<(seq<string>, Tokens)> {
    if dangling then Err else Ok((Collect(vs), rest))
  }

  lemma LastIsEmpty(vs: seq<string>, rest: Tokens)
    requires vs != [] && vs[|vs| - 1] == ""
    ensures From(vs, |vs| - 1, rest) == rest
  {
    assert vs[|vs| - 1..] == [""] && ListTokens([""]) == [];
  }

  /** What the parser returns from value `i` on, and from the comma behind it on, when all before is collected. */
  function FromValue(vs: seq<string>, i: nat, rest: Tokens): Result<(seq<string>, Tokens)>
    requires i < |vs|
  {
    IdentifierList(From(vs, i, rest), Collect(vs[..i]))
  }

  function FromComma(vs: seq<string>, i: nat, rest: Tokens): Result<(seq<string>, Tokens)>
    requires i + 1 < |vs|
  {
    IdentifierList([CommaItem] + From(vs, i + 1, rest), Collect(vs[..i + 1]))
  }

  lemma FromCommaToWord(vs: seq<string>, i: nat, rest: Tokens)
    requires ValidValues(vs) && i + 1 < |vs| && vs[i + 1] != "" && Head(rest).tok == ClosedPar
    ensures FromComma(vs, i, rest) == FromValue(vs, i + 1, rest)
  {
    WordStepAt(vs, i + 1, rest);
    CollectNext(vs, i);
    CommaThenWord(From(vs, i + 1, rest), Collect(vs[..i + 1]));
  }

  lemma FromCommaToEnd(vs: seq<string>, i: nat, rest: Tokens)
    requires i + 2 == |vs| && vs[i + 1] == "" && Head(rest).tok == ClosedPar
    ensures FromComma(vs, i, rest) == Ok((Collect(vs), rest))
  {
    LastIsEmpty(vs, rest);
    CollectNext(vs, i);
    CollectNext(vs, i + 1);
    assert vs[..i + 2] == vs;
    CommaThenEnd(rest, Collect(vs[..i + 1]));
  }

  lemma OneIsNotDangling(vs: seq<string>, i: nat)
    requires i + 1 == |vs|
    ensures !Dangling(vs[i..])
  {
    assert vs[i..] == [vs[i]] + [];
    TrailingFrom(vs[i], []);
  }

  lemma FromCommaToComma(vs: seq<string>, i: nat, rest: Tokens)
    requires i + 2 < |vs| && vs[i + 1] == ""
    ensures FromComma(vs, i, rest) == FromValue(vs, i + 2, rest)
  {
    EmptyFirst(vs, i + 1, rest);
    CollectNext(vs, i);
    CollectNext(vs, i + 1);
    CommaThenComma(From(vs, i + 2, rest), Collect(vs[..i + 1]));
  }

  /** An empty value whose comma before it is taken already: the last one, or one in front of another comma. */
  lemma FromTakenEmpty(vs: seq<string>, i: nat, rest: Tokens)
    requires 0 < i < |vs| && vs[i] == "" && vs[i - 1] == "" && Head(rest).tok == ClosedPar
    ensures FromValue(vs, i, rest) == if i == |vs| - 1 then Err else FromComma(vs, i, rest)
  {
    if i == |vs| - 1 {
      LastIsEmpty(vs, rest);
    } else {
      EmptyFirst(vs, i, rest);
      EmptyAgain(vs, i);
    }
  }

  lemma FromWord(vs: seq<string>, i: nat, rest: Tokens)
    requires ValidValues(vs) && i < |vs| && vs[i] != "" && Head(rest).tok == ClosedPar
    ensures FromValue(vs, i, rest) == if i == |vs| - 1 then Ok((Collect(vs), rest)) else FromComma(vs, i, rest)
  {
    WordStepAt(vs, i, rest);
  }

  /** The list is refused exactly if an even number of empty values is left at its end. */
  lemma {:induction false} AtComma(vs: seq<string>, i: nat, rest: Tokens)
    requires ValidValues(vs) && i + 1 < |vs| && Head(rest).tok == ClosedPar
    ensures FromComma(vs, i, rest) == Outcome(vs, Dangling(vs[i + 1..]), rest)
    decreases |vs| - i, 0
  {
    if vs[i + 1] != "" {
      FromCommaToWord(vs, i, rest);
      AtWord(vs, i + 1, rest);
    } else if i + 2 == |vs| {
      FromCommaToEnd(vs, i, rest);
      OneIsNotDangling(vs, i + 1);
    } else {
      FromCommaToComma(vs, i, rest);
      AtTwoCommas(vs, i + 1, rest);
    }
  }

  lemma {:induction false} AtWord(vs: seq<string>, i: nat, rest: Tokens)
    requires ValidValues(vs) && i < |vs| && vs[i] != "" && Head(rest).tok == ClosedPar
    ensures FromValue(vs, i, rest) == Outcome(vs, Dangling(vs[i..]), rest)
    decreases |vs| - i, 1
  {
    FromWord(vs, i, rest);
    if i < |vs| - 1 {
      DanglingBehindWord(vs, i);
      AtComma(vs, i, rest);
    } else {
      OneIsNotDangling(vs, i);
    }
  }

  /** Value `i` is empty, and the commas before and behind it have been taken together. */
  lemma {:induction false} AtTwoCommas(vs: seq<string>, i: nat, rest: Tokens)
    requires ValidValues(vs) && i + 1 < |vs| && vs[i] == "" && Head(rest).tok == ClosedPar
    ensures FromValue(vs, i + 1, rest) == Outcome(vs, Dangling(vs[i..]), rest)
    decreases |vs| - i, 0
  {
    if vs[i + 1] != "" {
      DanglingBehindEmpty(vs, i);
      AtWord(vs, i + 1, rest);
    } else {
      DanglingBehindTwo(vs, i);
      FromTakenEmpty(vs, i + 1, rest);
      if i + 2 < |vs| { AtComma(vs, i + 1, rest); }
    }
  }

  /** The parser is at the first value, `i`, or at the comma behind it. */
  lemma FromStart(vs: seq<string>, i: nat, rest: Tokens)
    requires i == 0 < |vs| && (vs[i] == "" ==> |vs| > 1)
    ensures IdentifierList(ListTokens(vs) + rest, []) == if vs[i] != "" then FromValue(vs, i, rest) else FromComma(vs, i, rest)
  {
    assert vs[i..] == vs && vs[..i] == [];
    if vs[i] == "" {
      EmptyFirst(vs, i, rest);
      CommaFirst(From(vs, i + 1, rest));
      CollectNext(vs, i);
    }
  }

  /** A comma in front of everything stands behind an empty value. */
  lemma CommaFirst(more: Tokens)
    ensures IdentifierList([CommaItem] + more, []) == IdentifierList([CommaItem] + more, Insert([], ""))
  {
    Prepended(CommaItem, more);
  }

  lemma StartsList(vs: seq<string>, rest: Tokens)
    requires ValidValues(vs) && vs != [] && (vs[0] == "" ==> |vs| > 1) && Head(rest).tok == ClosedPar
    ensures var t := Head(ListTokens(vs) + rest).tok; IsWord(t) || t == Comma
  {
    assert vs[0..] == vs;
    if vs[0] != "" { WordStepAt(vs, 0, rest); } else { EmptyFirst(vs, 0, rest); }
  }

  lemma FirstIsWord(vs: seq<string>, i: nat, rest: Tokens)
    requires ValidValues(vs) && i < |vs| && vs[i] != "" && Head(rest).tok == ClosedPar
    ensures FromValue(vs, i, rest) == Outcome(vs, Dangling(vs[i + 1..]), rest)
  {
    AtWord(vs, i, rest);
    DanglingBehindWord(vs, i);
  }

  /** A list of values in any order, more than the empty value alone; `i` is the first of them. */
  lemma ListParsed(vs: seq<string>, i: nat, rest: Tokens)
    requires ValidValues(vs) && i == 0 < |vs| && (vs[i] == "" ==> |vs| > 1) && Head(rest).tok == ClosedPar
    ensures IdentifierList(ListTokens(vs) + rest, []) == Outcome(vs, Dangling(vs[i + 1..]), rest)
  {
    FromStart(vs, i, rest);
    if vs[i] != "" {
      FirstIsWord(vs, i, rest);
    } else {
      AtComma(vs, i, rest);
    }
  }

  // ---- Sets and selectors as they are written ----

  /** A set is refused exactly if, the first value aside, an even number of empty values is at its end. */
  predicate Refused(vs: seq<string>)
    requires vs != []
  {
    Dangling(vs[1..])
  }

  lemma SetParsed(vs: seq<string>, rest: Tokens)
    requires ValidValues(vs) && vs != []
    ensures ParseValues(SetTokens(vs) + rest) == if Refused(vs) then Err else Ok((Collect(vs), rest))
  {
    var open, close := Item(OpenPar, "("), Item(ClosedPar, ")");
    SetParts(vs, rest);
    Prepended(close, rest);
    Prepended(open, ListTokens(vs) + ([close] + rest));
    if vs == [""] {
      EmptySet(rest);
    } else {
      StartsList(vs, [close] + rest);
      ListParsed(vs, 0, [close] + rest);
    }
  }

  lemma SetParts(vs: seq<string>, rest: Tokens)
    ensures SetTokens(vs) + rest == [Item(OpenPar, "(")] + (ListTokens(vs) + ([Item(ClosedPar, ")")] + rest))
  {
  }

  /** Parentheses around nothing hold the empty value. */
  lemma EmptySet(rest: Tokens)
    ensures ParseValues(SetTokens([""]) + rest) == Ok(([""], rest)) && Collect([""]) == [""] && !Refused([""])
  {
    SetParts([""], rest);
    var open, close := Item(OpenPar, "("), Item(ClosedPar, ")");
    assert ListTokens([""]) + ([close] + rest) == [close] + rest;
    Prepended(close, rest);
    Prepended(open, [close] + rest);
    assert [""][..0] == [] && [""][1..] == [];
  }

  /** A set-based requirement: a key, one of the two operators, and values in parentheses, in any order. */
  ghost predicate Writable(r: Requirement) {
    ValidKey(r.key) && (r.operator == In || r.operator == NotIn) && r.values != [] && ValidValues(r.values)
  }

  function Write(r: Requirement): string {
    r.key + PrintOperator(r.operator) + SetText(r.values)
  }

  function WriteTokens(r: Requirement): seq<Item> {
    [WordItem(r.key), OperatorItem(r.operator)] + SetTokens(r.values)
  }

  /** The requirement that is read: the values as a set. */
  function Collected(r: Requirement): Requirement {
    r.(values := Collect(r.values))
  }

  lemma WriteStep(r: Requirement, t: string)
    requires Writable(r) && Boundary(t)
    ensures Lexes(Write(r), WriteTokens(r), t)
  {
    SetStep(r.values, t);
    KeyStep(r.key, r.operator, SetText(r.values) + t);
    Then(r.key + PrintOperator(r.operator), [WordItem(r.key), OperatorItem(r.operator)],
         SetText(r.values), SetTokens(r.values), t);
  }

  lemma CollectedMade(r: Requirement)
    requires Writable(r)
    ensures NewRequirement(r.key, r.operator, Collect(r.values)) == Ok(Collected(r))
  {
    var vs := Collect(r.values);
    CollectIsSet(r.values);
    SortedAlready(vs);
    forall v <- vs ensures ValidValue(v) { assert v in r.values; }
  }

  lemma WriteParts(r: Requirement, rest: Tokens)
    ensures WriteTokens(r) + rest == [WordItem(r.key)] + ([OperatorItem(r.operator)] + (SetTokens(r.values) + rest))
  {
  }

  lemma WrittenParses(r: Requirement, rest: Tokens)
    requires Writable(r)
    ensures IsWord(Head(WriteTokens(r) + rest).tok)
    ensures ParseRequirement(WriteTokens(r) + rest) == if Refused(r.values) then Err else Ok((Collected(r), rest))
  {
    var operand := SetTokens(r.values) + rest;
    SetParsed(r.values, rest);
    OperatorTokens(r.key, r.operator, operand);
    CollectedMade(r);
    WriteParts(r, rest);
    KeyThenOperand([WordItem(r.key)] + ([OperatorItem(r.operator)] + operand), r.operator);
  }

  /** Behind a requirement the text ends, or a comma and the word of another requirement follow; nothing else is taken. */
  lemma NothingElseFollows(r: Requirement, rest: Tokens)
    requires Writable(r) && !Refused(r.values)
    ensures var all, next := ParseAll(WriteTokens(r) + rest), Head(rest).tok;
            && (next == EndOfString ==> all == Ok([Collected(r)]))
            && (next == Comma && !IsWord(Head(Tail(rest)).tok) ==> all == Err)
            && (next != EndOfString && next != Comma ==> all == Err)
  {
    WrittenParses(r, rest);
  }

  /** Requirements one after the other, with commas between them. */
  function WriteAll(rs: seq<Requirement>): string
    requires rs != []
  {
    if |rs| == 1 then Write(rs[0]) else Write(rs[0]) + ("," + WriteAll(rs[1..]))
  }

  function AllTokens(rs: seq<Requirement>): seq<Item>
    requires rs != []
  {
    if |rs| == 1 then WriteTokens(rs[0]) + [EndItem] else WriteTokens(rs[0]) + ([CommaItem] + AllTokens(rs[1..]))
  }

  function AllCollected(rs: seq<Requirement>): seq<Requirement> {
    if rs == [] then [] else [Collected(rs[0])] + AllCollected(rs[1..])
  }

  ghost predicate AllWritable(rs: seq<Requirement>) {
    forall i | 0 <= i < |rs| :: Writable(rs[i])
  }

  predicate SomeRefused(rs: seq<Requirement>)
    requires forall i | 0 <= i < |rs| :: rs[i].values != []
  {
    exists i | 0 <= i < |rs| :: Refused(rs[i].values)
  }

  lemma WriteStarts(rs: seq<Requirement>)
    requires rs != [] && ValidKey(rs[0].key)
    ensures NoZero(WriteAll(rs))
  {
    KeyIsWord(rs[0].key);
    assert Write(rs[0])[0] == rs[0].key[0];
  }

  lemma {:induction false} AllLexed(rs: seq<Requirement>)
    requires AllWritable(rs) && rs != []
    ensures Tokenize(WriteAll(rs)) == AllTokens(rs)
  {
    if |rs| == 1 {
      assert Tokenize("") == [EndItem] && Write(rs[0]) + "" == Write(rs[0]);
      WriteStep(rs[0], "");
    } else {
      AllLexed(rs[1..]);
      MoreLexed(rs);
    }
  }

  lemma {:induction false} MoreLexed(rs: seq<Requirement>)
    requires |rs| > 1 && Writable(rs[0]) && Writable(rs[1]) && Tokenize(WriteAll(rs[1..])) == AllTokens(rs[1..])
    ensures Tokenize(WriteAll(rs)) == AllTokens(rs)
  {
    var more := WriteAll(rs[1..]);
    WriteStarts(rs[1..]);
    SymbolStep(",", more);
    WriteStep(rs[0], "," + more);
  }

  lemma {:induction false} AllParsed(rs: seq<Requirement>)
    requires AllWritable(rs) && rs != []
    ensures IsWord(Head(AllTokens(rs)).tok)
    ensures ParseAll(AllTokens(rs)) == if SomeRefused(rs) then Err else Ok(AllCollected(rs))
  {
    if |rs| == 1 {
      WrittenParses(rs[0], [EndItem]);
      assert AllCollected(rs[1..]) == [] && AllCollected(rs) == [Collected(rs[0])];
    } else {
      AllParsed(rs[1..]);
      MoreParsed(rs);
      RefusedAmong(rs);
    }
  }

  lemma {:induction false} MoreParsed(rs: seq<Requirement>)
    requires |rs| > 1 && Writable(rs[0]) && IsWord(Head(AllTokens(rs[1..])).tok)
    ensures IsWord(Head(AllTokens(rs)).tok)
    ensures var more := ParseAll(AllTokens(rs[1..]));
            ParseAll(AllTokens(rs)) == if Refused(rs[0].values) || more.Err? then Err else Ok([Collected(rs[0])] + more.value)
  {
    var more := AllTokens(rs[1..]);
    Prepended(CommaItem, more);
    WrittenParses(rs[0], [CommaItem] + more);
  }

  lemma {:induction false} RefusedAmong(rs: seq<Requirement>)
    requires AllWritable(rs) && |rs| > 1
    ensures SomeRefused(rs) <==> Refused(rs[0].values) || SomeRefused(rs[1..])
  {
    if SomeRefused(rs[1..]) {
      var i :| 0 <= i < |rs[1..]| && Refused(rs[1..][i].values);
      assert Refused(rs[i + 1].values);
    }
    if SomeRefused(rs) && !Refused(rs[0].values) {
      var i :| 0 <= i < |rs| && Refused(rs[i].values);
      assert Refused(rs[1..][i - 1].values);
    }
  }

  lemma {:induction false} WrittenText(rs: seq<Requirement>)
    requires AllWritable(rs) && rs != []
    ensures ParseText(WriteAll(rs)) == if SomeRefused(rs) then Err else Ok(AllCollected(rs))
  {
    AllLexed(rs);
    AllParsed(rs);
  }

  /** A requirement is read as it was written, with exactly its values, sorted and once each. */
  ghost predicate ReadAs(r: Requirement, r': Requirement) {
    r'.key == r.key && r'.operator == r.operator && Sorted(r'.values) && forall v :: v in r'.values <==> v in r.values
  }

  /**
   Every selector of set-based requirements as it may be written, with the values in any order
   and empty ones anywhere: it is refused exactly if a set has an even number of empty values
   at its end, not counting its first value; otherwise each requirement has exactly the
   values that were written, sorted and once each.
   */
  lemma {:induction false} WrittenSelector(rs: seq<Requirement>)
    requires AllWritable(rs) && rs != []
    ensures var r := ParseText(WriteAll(rs));
            if SomeRefused(rs) then r == Err
            else r.Ok? && |r.value| == |rs| && forall i | 0 <= i < |rs| :: ReadAs(rs[i], r.value[i])
  {
    WrittenText(rs);
    AllReadAs(rs);
  }

  lemma AllReadAs(rs: seq<Requirement>)
    ensures |AllCollected(rs)| == |rs| && forall i | 0 <= i < |rs| :: ReadAs(rs[i], AllCollected(rs)[i])
  {
    if rs != [] { CollectedAt(rs, 0); }
    forall i | 0 <= i < |rs| ensures ReadAs(rs[i], AllCollected(rs)[i]) {
      CollectedAt(rs, i);
      CollectIsSet(rs[i].values);
    }
  }

  lemma {:induction false} CollectedAt(rs: seq<Requirement>, i: nat)
    requires i < |rs|
    ensures |AllCollected(rs)| == |rs| && AllCollected(rs)[i] == Collected(rs[i])
  {
    if i > 0 { CollectedAt(rs[1..], i - 1); } else if |rs| > 1 { CollectedAt(rs[1..], 0); }
  }

  /** The syntax example of the parser's documentation. */
  lemma DocumentedExample(text: string)
    requires text == "x in (foo,,baz),z notin ()"
    ensures ParseText(text) == Ok([Requirement("x", In, ["", "baz", "foo"]), Requirement("z", NotIn, [""])])
  {
    var a, b := Requirement("x", In, ["foo", "", "baz"]), Requirement("z", NotIn, [""]);
    ExampleWritten(a, b);
    ExampleCollected();
    WrittenText([a, b]);
    TwoCollected([a, b]);
  }

  lemma {:induction false} TwoCollected(rs: seq<Requirement>)
    requires |rs| == 2
    ensures AllCollected(rs) == [Collected(rs[0]), Collected(rs[1])]
  {
    CollectedAt(rs, 0);
    CollectedAt(rs, 1);
  }

  /** The exact operators. */
  lemma ExactExample(key: string, v: string)
    requires ValidKey(key) && ValidValue(v) && v != ""
    ensures ParseText(key + "=" + v) == Ok([Requirement(key, Equals, [v])])
    ensures ParseText(key + "!=" + v) == Ok([Requirement(key, NotEquals, [v])])
  {
    ExactWritten(key, Equals, v);
    ExactWritten(key, NotEquals, v);
  }

  lemma ExactWritten(key: string, op: Operator, v: string)
    requires ValidKey(key) && ValidValue(v) && v != "" && (op == Equals || op == NotEquals)
    ensures ParseText(key + PrintOperator(op) + v) == Ok([Requirement(key, op, [v])])
  {
    var r := Requirement(key, op, [v]);
    OneRequirement(r);
    DedupOne(v);
    PrintOne(r);
  }

  lemma PrintOne(r: Requirement)
    ensures Print([r]) == PrintRequirement(r)
  {
    assert [r][1..] == [] && Prints([]) == [];
    assert Prints([r]) == [PrintRequirement(r)];
  }

  lemma ExampleWritten(a: Requirement, b: Requirement)
    requires a == Requirement("x", In, ["foo", "", "baz"]) && b == Requirement("z", NotIn, [""])
    ensures AllWritable([a, b]) && !SomeRefused([a, b]) && WriteAll([a, b]) == "x in (foo,,baz),z notin ()"
  {
    ExampleNames();
    ExampleTexts(a, b);
    assert [a, b][1..] == [b];
    assert a.values[1..] == ["", "baz"] && b.values[1..] == [];
  }

  lemma ExampleNames()
    ensures IsName("x") && IsName("z") && IsName("foo") && IsName("baz")
  {
  }

  lemma ExampleTexts(a: Requirement, b: Requirement)
    requires a == Requirement("x", In, ["foo", "", "baz"]) && b == Requirement("z", NotIn, [""])
    ensures Write(a) == "x in (foo,,baz)" && Write(b) == "z notin ()"
  {
    assert a.values[1..] == ["", "baz"] && ["", "baz"][1..] == ["baz"];
    assert Join(a.values[1..], ",") == ",baz";
  }

  lemma ExampleCollected()
    ensures Collect(["foo", "", "baz"]) == ["", "baz", "foo"] && Collect([""]) == [""]
  {
    assert [""][..0] == [] && ["foo"][..0] == [];
    assert ["foo", ""][..1] == ["foo"] && ["foo", "", "baz"][..2] == ["foo", ""];
    assert Collect(["foo"]) == ["foo"];
    assert Insert(["foo"], "") == ["", "foo"];
    assert ["", "foo"][1..] == ["foo"] && Less("baz", "foo") && !Less("baz", "");
    assert Insert(["foo"], "baz") == ["baz", "foo"];
    assert Insert(["", "foo"], "baz") == [""] + ["baz", "foo"];
  }
}
