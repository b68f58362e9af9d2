/**
 The lexer and the parser of label selectors as they work: over a position in the text and
 a position in the scanned items. Each is proved against the functions of SelectorModel.
 */
module Selector {
  import M = SelectorModel
  import opened SelectorModel
  import opened SelectorRoundTrip

  lemma WordGoesOn(r: string, n: nat)
    requires n < |r| && IsPlain(r[n])
    ensures r[..n] + [r[n]] == r[..n + 1] && r[n..][1..] == r[n + 1..]
    ensures WordLength(r[n..]) == 1 + WordLength(r[n + 1..])
  {
    assert r[n..][1..] == r[n + 1..];
  }

  /** The next character of a text, zero at its end, and the others. */
  function First(r: string): char {
    if r == "" then '\0' else r[0]
  }

  function Others(r: string): string {
    if r == "" then "" else r[1..]
  }

  /** A word ends before a character that does not continue it; a zero byte goes with it. */
  lemma WordStops(r: string, n: nat)
    requires n <= |r| && !IsPlain(First(r[n..]))
    ensures WordLength(r[n..]) == 0 && AfterZero(r[n..]) == if First(r[n..]) == '\0' then Others(r[n..]) else r[n..]
  {
  }

  lemma NextWord(start: string, from: string)
    requires from == SkipBlanks(start) && from != "" && from[0] != '\0'
    ensures Next(start) == if IsSpecial(from[0]) then ScanSymbols(from, "", NoItem)
                           else (WordItem(from[..WordLength(from)]), AfterZero(from[WordLength(from)..]))
  {
  }

  lemma NextEnd(start: string, from: string)
    requires from == SkipBlanks(start) && First(from) == '\0'
    ensures Next(start) == (Item(EndOfString, ""), Others(from))
  {
  }

  lemma TokensSoFar(items: seq<Item>, rest: string)
    ensures var (item, more) := Next(rest);
            items + Tokenize(rest) ==
              if item.tok == EndOfString then items + [item] else items + [item] + Tokenize(more)
  {
    NextShrinks(rest);
  }

  class Lexer {
    const s: string
    var pos: nat

    constructor (s: string)
      ensures this.s == s && pos == 0 && Valid()
    {
      this.s, pos := s, 0;
    }

    ghost predicate Valid()
      reads this
    {
      pos <= |s|
    }

    ghost function Rest(): string
      requires Valid()
      reads this
    {
      s[pos..]
    }

    /** The character at the position, which is consumed, or zero at the end of the text. */
    method Read() returns (c: char)
      requires Valid()
      modifies this
      ensures Valid()
      ensures old(pos) < |s| ==> c == s[old(pos)] && pos == old(pos) + 1
      ensures old(pos) == |s| ==> c == '\0' && pos == old(pos)
      ensures c == First(old(Rest())) && Rest() == Others(old(Rest()))
    {
      c := '\0';
      if pos < |s| {
        c := s[pos];
        pos := pos + 1;
        assert s[pos - 1..][1..] == s[pos..];
      }
    }

    method ScanIDOrKeyword() returns (item: Item)
      requires Valid()
      modifies this
      ensures Valid() && item == WordItem(old(Rest())[..WordLength(old(Rest()))])
      ensures Rest() == AfterZero(old(Rest())[WordLength(old(Rest()))..])
    {
      ghost var r := Rest();
      var buffer := "";
      while true
        invariant Valid() && |buffer| <= |r| && buffer == r[..|buffer|] && Rest() == r[|buffer|..]
        invariant WordLength(r) == |buffer| + WordLength(Rest())
        decreases |s| - pos
      {
        ghost var n := |buffer|;
        var c := Read();
        if c == '\0' {
          WordStops(r, n);
          break;
        }
        if IsSpecial(c) || IsWhitespace(c) {
          WordStops(r, n);
          pos := pos - 1;
          break;
        }
        WordGoesOn(r, n);
        buffer := buffer + [c];
      }
      return WordItem(buffer);
    }

    method ScanSpecialSymbol() returns (item: Item)
      requires Valid()
      modifies this
      ensures Valid() && (item, Rest()) == ScanSymbols(old(Rest()), "", NoItem)
    {
      item := NoItem;
      var buffer := "";
      while true
        invariant Valid() && ScanSymbols(Rest(), buffer, item) == ScanSymbols(old(Rest()), "", NoItem)
        decreases |s| - pos
      {
        ghost var rest := Rest();
        var c := Read();
        if c == '\0' {
          break;
        }
        assert rest[0] == c && rest[1..] == Rest();
        if !IsSpecial(c) {
          pos := pos - 1;
          break;
        }
        buffer := buffer + [c];
        if TokenOf(buffer) != ErrorToken {
          item := Item(TokenOf(buffer), buffer);
        } else if item.tok != ErrorToken {
          pos := pos - 1;
          break;
        }
      }
    }

    /** Reads on from a character just read until one is not white space; `from` is where that one stands. */
    method SkipWhiteSpaces(ch: char, ghost start: string) returns (c: char, ghost from: string)
      requires Valid() && JustRead(ch, start)
      modifies this
      ensures Valid() && JustRead(c, from) && from == SkipBlanks(start)
    {
      c, from := ch, start;
      while IsWhitespace(c)
        invariant Valid() && JustRead(c, from) && SkipBlanks(from) == SkipBlanks(start)
        decreases |from|
      {
        ghost var rest := Rest();
        assert from[1..] == rest;
        c := Read();
        from := rest;
      }
    }

    /** The character read last is the first of `from`, or zero if that is the empty end of the text. */
    ghost predicate JustRead(c: char, from: string)
      requires Valid()
      reads this
    {
      if from == "" then c == '\0' && pos == |s| else 0 < pos && from == s[pos - 1..] && c == from[0]
    }

    method Lex() returns (item: Item)
      requires Valid()
      modifies this
      ensures Valid() && (item, Rest()) == Next(old(Rest()))
    {
      ghost var start := Rest();
      var c := Read();
      ghost var from;
      c, from := SkipWhiteSpaces(c, start);
      if c == '\0' {
        NextEnd(start, from);
        assert Rest() == Others(from);
        return Item(EndOfString, "");
      }
      pos := pos - 1;
      NextWord(start, from);
      if IsSpecial(c) {
        item := ScanSpecialSymbol();
      } else {
        item := ScanIDOrKeyword();
      }
    }
  }

  // ---- What the lexer hands to the parser ----

  /** The end of the text is the last item and only the last. */
  ghost predicate Terminated(items: seq<Item>) {
    items != [] && forall i | 0 <= i < |items| :: items[i].tok == EndOfString <==> i == |items| - 1
  }

  lemma {:induction false} TokenizeTerminated(text: string)
    ensures Terminated(Tokenize(text))
    decreases |text|
  {
    NextShrinks(text);
    var (item, rest) := Next(text);
    if item.tok != EndOfString {
      TokenizeTerminated(rest);
    }
  }

  class Parser {
    const lexer: Lexer
    var items: seq<Item>
    var position: nat

    constructor (text: string)
      ensures fresh(lexer) && lexer.s == text && lexer.pos == 0 && items == [] && position == 0
    {
      lexer := new Lexer(text);
      items, position := [], 0;
    }

    ghost predicate Valid()
      reads this
    {
      Terminated(items) && position <= |items|
    }

    ghost function Remaining(): Tokens
      requires position <= |items|
      reads this
    {
      items[position..]
    }

    /** The item at hand is read without going past the end. */
    method Lookahead() returns (item: Item)
      requires Valid() && position < |items|
      ensures item == Head(Remaining())
    {
      return items[position];
    }

    /** Only the end of the text leaves nothing to read. */
    method Consume() returns (item: Item)
      requires Valid() && position < |items|
      modifies `position
      ensures Valid() && position == old(position) + 1 && Remaining() == Tail(old(Remaining()))
      ensures item == Head(old(Remaining())) && (item.tok != EndOfString ==> position < |items|)
    {
      position := position + 1;
      return items[position - 1];
    }

    method Scan()
      requires lexer.Valid() && items == []
      modifies this, lexer
      ensures items == Tokenize(old(lexer.Rest())) && position == old(position) && Terminated(items)
    {
      ghost var text := lexer.Rest();
      while true
        invariant lexer.Valid() && position == old(position)
        invariant items + Tokenize(lexer.Rest()) == Tokenize(text)
        decreases |lexer.Rest()|
      {
        ghost var rest := lexer.Rest();
        NextShrinks(rest);
        TokensSoFar(items, rest);
        var item := lexer.Lex();
        items := items + [item];
        if item.tok == EndOfString {
          break;
        }
      }
      TokenizeTerminated(text);
    }

    method ParseIdentifiersList() returns (r: Result<seq<string>>)
      requires Valid() && position < |items|
      modifies `position
      ensures Valid() && Returned(IdentifierList(old(Remaining()), []), r)
    {
      var values: seq<string> := [];
      while true
        invariant Valid() && position < |items|
        invariant IdentifierList(Remaining(), values) == IdentifierList(old(Remaining()), [])
        decreases |items| - position
      {
        var item := Consume();
        if IsWord(item.tok) {
          values := Insert(values, item.literal);
          var next := Lookahead();
          if next.tok == ClosedPar { return Ok(values); }
          if next.tok != Comma { return Err; }
        } else if item.tok == Comma {
          if values == [] { values := Insert(values, ""); }
          var next := Lookahead();
          if next.tok == ClosedPar { return Ok(Insert(values, "")); }
          if next.tok == Comma {
            next := Consume();
            values := Insert(values, "");
          }
        } else {
          return Err;
        }
      }
    }

    /** The result of a parsing function, with what it leaves to be read. */
    ghost predicate Returned<T>(spec: Result<(T, Tokens)>, r: Result<T>)
      requires position <= |items|
      reads this
    {
      match spec
      case Err => r.Err?
      case Ok((value, rest)) => r == Ok(value) && position < |items| && rest == Remaining()
    }

    method ParseValues() returns (r: Result<seq<string>>)
      requires Valid() && position < |items|
      modifies `position
      ensures Valid() && Returned(M.ParseValues(old(Remaining())), r)
    {
      var item := Consume();
      if item.tok != OpenPar { return Err; }
      item := Lookahead();
      if IsWord(item.tok) || item.tok == Comma {
        r := ParseIdentifiersList();
        if r.Ok? {
          item := Consume();
          if item.tok != ClosedPar { return Err; }
        }
      } else if item.tok == ClosedPar {
        item := Consume();
        return Ok([""]);
      } else {
        return Err;
      }
    }

    method ParseExactValue() returns (r: Result<seq<string>>)
      requires Valid() && position < |items|
      modifies `position
      ensures Valid() && Returned(M.ParseExactValue(old(Remaining())), r)
    {
      var item := Lookahead();
      if item.tok == EndOfString || item.tok == Comma { return Err; }
      item := Consume();
      return if IsWord(item.tok) then Ok([item.literal]) else Err;
    }

    method ParseKey() returns (r: Result<string>)
      requires Valid() && position < |items|
      modifies `position
      ensures Valid() && r.Ok? == (IsWord(Head(old(Remaining())).tok) && ValidKey(Head(old(Remaining())).literal))
      ensures r.Ok? ==> r.value == Head(old(Remaining())).literal && position < |items|
      ensures Remaining() == Tail(old(Remaining()))
    {
      var item := Consume();
      return if IsWord(item.tok) && ValidKey(item.literal) then Ok(item.literal) else Err;
    }

    method ParseOperator() returns (r: Result<Operator>)
      requires Valid() && position < |items|
      modifies `position
      ensures Valid() && r == OperatorOf(Head(old(Remaining())).tok)
      ensures Remaining() == Tail(old(Remaining())) && (r.Ok? ==> position < |items|)
    {
      var item := Consume();
      return OperatorOf(item.tok);
    }

    method ParseOperand(op: Operator) returns (r: Result<seq<string>>)
      requires Valid() && position < |items|
      modifies `position
      ensures Valid() && Returned(M.ParseOperand(op, old(Remaining())), r)
    {
      match op {
        case In | NotIn => r := ParseValues();
        case Equals | NotEquals => r := ParseExactValue();
      }
    }

    method ParseRequirement() returns (r: Result<Requirement>)
      requires Valid() && position < |items|
      modifies `position
      ensures Valid() && Returned(M.ParseRequirement(old(Remaining())), r)
    {
      var key := ParseKey();
      if key.Err? { return Err; }
      var op := ParseOperator();
      if op.Err? { return Err; }
      KeyThenOperand(old(Remaining()), op.value);
      var values := ParseOperand(op.value);
      if values.Err? { return Err; }
      r := NewRequirement(key.value, op.value, values.value);
    }

    /** One requirement and the comma or end behind it; `more` says another requirement follows. */
    method ParseNext() returns (r: Result<Requirement>, more: bool)
      requires Valid() && position < |items| && IsWord(Head(Remaining()).tok)
      modifies `position
      ensures Valid() && (more ==> r.Ok? && old(position) < position < |items|)
      ensures ParseAll(old(Remaining())) == if r.Err? then Err else
          After([r.value], if more then ParseAll(Remaining()) else Ok([]))
    {
      more := false;
      r := ParseRequirement();
      if r.Ok? {
        var item := Consume();
        if item.tok == Comma {
          item := Lookahead();
          more := IsWord(item.tok);
          if !more { r := Err; }
        } else if item.tok != EndOfString {
          r := Err;
        }
      }
    }

    method Parse() returns (r: Result<seq<Requirement>>)
      requires lexer.Valid() && lexer.pos == 0 && items == [] && position == 0
      modifies this, lexer
      ensures r == ParseText(lexer.s)
    {
      assert lexer.Rest() == lexer.s;
      Scan();
      assert Remaining() == items;
      var requirements: seq<Requirement> := [];
      while true
        invariant Valid() && position < |items|
        invariant After(requirements, ParseAll(Remaining())) == ParseText(lexer.s)
        decreases |items| - position
      {
        var item := Lookahead();
        if item.tok == EndOfString { return Ok(requirements); }
        if !IsWord(item.tok) { return Err; }
        var requirement, more := ParseNext();
        if requirement.Err? { return Err; }
        AfterOne(requirements, requirement.value, if more then ParseAll(Remaining()) else Ok([]));
        requirements := requirements + [requirement.value];
        if !more { return Ok(requirements); }
      }
    }
  }

  lemma AfterOne(done: seq<Requirement>, one: Requirement, r: Result<seq<Requirement>>)
    ensures After(done, After([one], r)) == After(done + [one], r)
  {
    if r.Ok? { assert done + ([one] + r.value) == done + [one] + r.value; }
  }

  ghost function After(done: seq<Requirement>, r: Result<seq<Requirement>>): (r': Result<seq<Requirement>>)
    ensures (done == [] ==> r' == r) && (r == Ok([]) ==> r' == Ok(done))
  {
    match r
    case Err => Err
    case Ok(rs) => assert [] + rs == rs && done + [] == done; Ok(done + rs)
  }

  // ---- What is parsed is well formed ----

  /** Placing keeps a list in order and adds the one string. */
  lemma {:induction false} PlaceInOrder(l: seq<string>, s: string)
    requires InOrder(l)
    ensures InOrder(M.Place(l, s)) && multiset(M.Place(l, s)) == multiset(l) + multiset{s}
  {
    if l != [] {
      var head, rest := l[0], l[1..];
      assert l == [head] + rest;
      LessTotal(s, head);
      if s == head || Less(s, head) {
        forall i | 0 <= i < |l| ensures s == l[i] || Less(s, l[i]) {
          if s != head && i > 0 && l[i] != head { LessBetween(s, head, l[i]); }
        }
      } else {
        PlaceInOrder(rest, s);
        PlacedBehind(head, rest, s);
      }
    }
  }

  lemma PlacedBehind(head: string, rest: seq<string>, s: string)
    requires InOrder([head] + rest) && Less(head, s) && InOrder(M.Place(rest, s))
    requires multiset(M.Place(rest, s)) == multiset(rest) + multiset{s}
    ensures InOrder([head] + M.Place(rest, s))
  {
    var more, l := M.Place(rest, s), [head] + rest;
    forall i | 0 <= i < |more| ensures head == more[i] || Less(head, more[i]) {
      assert more[i] in multiset(more);
      if more[i] != s {
        assert more[i] in multiset(rest);
        var j :| 0 <= j < |rest| && rest[j] == more[i];
        assert l[0] == head && l[j + 1] == more[i];
      }
    }
  }

  lemma {:induction false} SortsValues(vs: seq<string>)
    ensures InOrder(SortValues(vs)) && multiset(SortValues(vs)) == multiset(vs)
  {
    if vs != [] {
      SortsValues(vs[1..]);
      PlaceInOrder(SortValues(vs[1..]), vs[0]);
      assert vs == [vs[0]] + vs[1..];
    }
  }

  /** What the constructor makes is well formed, with the values it was given. */
  lemma ConstructorMakesWellFormed(key: string, op: Operator, vs: seq<string>)
    ensures var r := NewRequirement(key, op, vs);
            r.Ok? ==> WellFormed(r.value) && multiset(r.value.values) == multiset(vs)
  {
    SortsValues(vs);
    var sorted := SortValues(vs);
    assert |sorted| == |multiset(sorted)| == |multiset(vs)| == |vs|;
    forall i | 0 <= i < |sorted| ensures sorted[i] in vs {
      assert sorted[i] in multiset(sorted);
    }
  }

  /** The constructor takes one value for an exact match and at least one for a set, all of them valid, and nothing else. */
  lemma ConstructorRefuses(key: string, op: Operator, vs: seq<string>)
    ensures NewRequirement(key, op, vs).Ok? <==>
            && ValidKey(key) && (forall v <- vs :: v == "" || IsName(v)) && vs != []
            && (op == Equals || op == NotEquals ==> |vs| == 1)
  {
  }

  lemma {:induction false} ListSorted(ts: Tokens, acc: seq<string>)
    requires Sorted(acc)
    ensures var r := IdentifierList(ts, acc); r.Ok? ==> Sorted(r.value.0)
    decreases |ts|
  {
    var t, next := Head(ts), Head(Tail(ts)).tok;
    if IsWord(t.tok) {
      InsertSorts(acc, t.literal);
      if next == Comma { ListSorted(Tail(ts), Insert(acc, t.literal)); }
    } else if t.tok == Comma {
      var acc' := if acc == [] then Insert(acc, "") else acc;
      InsertSorts(acc', "");
      if next == Comma {
        ListSorted(Tail(Tail(ts)), Insert(acc', ""));
      } else if next != ClosedPar && ts != [] {
        ListSorted(Tail(ts), acc');
      }
    }
  }

  /** Valid, with the values in order and once each. */
  ghost predicate Canonical(r: Requirement) {
    WellFormed(r) && Sorted(r.values)
  }

  lemma OperandSorted(op: Operator, ts: Tokens)
    ensures var r := M.ParseOperand(op, ts); r.Ok? ==> Sorted(r.value.0)
  {
    ListSorted(Tail(ts), []);
  }

  lemma MadeCanonical(key: string, op: Operator, vs: seq<string>)
    requires Sorted(vs)
    ensures var r := NewRequirement(key, op, vs); r.Ok? ==> Canonical(r.value)
  {
    SortedAlready(vs);
    forall i | 0 <= i < |vs| ensures vs[i] in vs {}
  }

  /** Every requirement that is parsed is canonical. */
  lemma RequirementCanonical(ts: Tokens)
    ensures var r := M.ParseRequirement(ts); r.Ok? ==> Canonical(r.value.0)
  {
    var op := OperatorOf(Head(Tail(ts)).tok);
    if op.Ok? && IsWord(Head(ts).tok) && ValidKey(Head(ts).literal) {
      KeyThenOperand(ts, op.value);
      OperandSorted(op.value, Tail(Tail(ts)));
      var operand := M.ParseOperand(op.value, Tail(Tail(ts)));
      if operand.Ok? { MadeCanonical(Head(ts).literal, op.value, operand.value.0); }
    }
  }

  lemma ParseOneMore(ts: Tokens, r: Requirement, rest: Tokens)
    requires M.ParseRequirement(ts) == Ok((r, rest)) && ParseAll(ts).Ok?
    ensures ParseAll(ts).value == [] || ParseAll(ts).value == [r] ||
            (ParseAll(Tail(rest)).Ok? && ParseAll(ts).value == [r] + ParseAll(Tail(rest)).value)
  {
  }

  lemma {:induction false} ParsedCanonical(ts: Tokens)
    ensures var r := ParseAll(ts); r.Ok? ==> forall i | 0 <= i < |r.value| :: Canonical(r.value[i])
    decreases |ts|
  {
    RequirementCanonical(ts);
    var r := M.ParseRequirement(ts);
    if r.Ok? && ParseAll(ts).Ok? {
      ParsedCanonical(Tail(r.value.1));
      ParseOneMore(ts, r.value.0, r.value.1);
    }
  }

  // ---- Sorting by key ----

  /** No later key is less than an earlier one; equal keys may stand in any order. */
  ghost predicate Ordered(rs: seq<Requirement>) {
    forall i, j | 0 <= i < j < |rs| :: !Less(rs[j].key, rs[i].key)
  }

  lemma SameFirst(rs: seq<Requirement>, rs': seq<Requirement>)
    requires rs != [] && SelectorOk(rs) && Ordered(rs') && multiset(rs) == multiset(rs')
    ensures rs' != [] && rs[0] == rs'[0]
  {
    assert rs[0] in multiset(rs');
    var j :| 0 <= j < |rs'| && rs'[j] == rs[0];
    assert rs'[0] in multiset(rs);
  }

  /** Where all keys differ there is only one order. */
  lemma {:induction false} OrderUnique(rs: seq<Requirement>, rs': seq<Requirement>)
    requires SelectorOk(rs) && Ordered(rs') && multiset(rs) == multiset(rs')
    ensures rs == rs'
  {
    if rs == [] {
      assert |rs'| == |multiset(rs')|;
    } else {
      SameFirst(rs, rs');
      SameRest(rs, rs');
      OrderUnique(rs[1..], rs'[1..]);
    }
  }

  lemma SameRest<T>(a: seq<T>, b: seq<T>)
    requires a != [] && b != [] && a[0] == b[0] && multiset(a) == multiset(b)
    ensures multiset(a[1..]) == multiset(b[1..]) && (a[1..] == b[1..] ==> a == b)
  {
    assert a == [a[0]] + a[1..] && b == [b[0]] + b[1..];
    assert multiset(a[1..]) == multiset(a) - multiset{a[0]};
  }

  /** A requirement put behind those whose keys are not greater. */
  method PlaceByKey(sorted: seq<Requirement>, r: Requirement) returns (more: seq<Requirement>)
    requires Ordered(sorted)
    ensures Ordered(more) && multiset(more) == multiset(sorted) + multiset{r}
  {
    var at := |sorted|;
    while at > 0 && Less(r.key, sorted[at - 1].key)
      invariant 0 <= at <= |sorted|
      invariant forall j | at <= j < |sorted| :: Less(r.key, sorted[j].key)
    {
      at := at - 1;
    }
    InsertOrdered(sorted, at, r);
    InsertCounts(sorted, at, r);
    more := sorted[..at] + [r] + sorted[at..];
  }

  lemma InsertCounts<T>(s: seq<T>, at: nat, x: T)
    requires at <= |s|
    ensures multiset(s[..at] + [x] + s[at..]) == multiset(s) + multiset{x}
  {
    assert s == s[..at] + s[at..];
  }

  method SortByKey(rs: seq<Requirement>) returns (sorted: seq<Requirement>)
    ensures Ordered(sorted) && multiset(sorted) == multiset(rs)
  {
    sorted := [];
    for i := 0 to |rs|
      invariant Ordered(sorted) && multiset(sorted) == multiset(rs[..i])
    {
      sorted := PlaceByKey(sorted, rs[i]);
      assert rs[..i + 1] == rs[..i] + [rs[i]];
    }
    assert rs[..|rs|] == rs;
  }

  lemma InsertOrdered(rs: seq<Requirement>, at: nat, r: Requirement)
    requires Ordered(rs) && at <= |rs| && (at > 0 ==> !Less(r.key, rs[at - 1].key))
    requires forall j | at <= j < |rs| :: Less(r.key, rs[j].key)
    ensures Ordered(rs[..at] + [r] + rs[at..])
  {
    forall i | 0 <= i < at ensures !Less(r.key, rs[i].key) {
      if Less(r.key, rs[i].key) && i < at - 1 {
        LessTotal(rs[i].key, rs[at - 1].key);
        if Less(rs[i].key, rs[at - 1].key) { LessBetween(r.key, rs[i].key, rs[at - 1].key); }
      }
    }
    forall j | at <= j < |rs| ensures !Less(rs[j].key, r.key) { LessOrders(r.key, rs[j].key); }
  }

  /** The requirements of a text, in an order of their keys. */
  ghost predicate ParsedBy(text: string, r: Result<seq<Requirement>>) {
    && r.Ok? == ParseText(text).Ok?
    && (r.Ok? ==> Ordered(r.value) && multiset(r.value) == multiset(ParseText(text).value))
  }

  /** For the print of a selector with one requirement for a key there is no choice of order. */
  lemma ParsedPrint(rs: seq<Requirement>, r: Result<seq<Requirement>>)
    requires SelectorOk(rs) && ParsedBy(Print(rs), r)
    ensures r == if forall i | 0 <= i < |rs| :: Parseable(rs[i]) then Ok(AllReparsed(rs)) else Err
    ensures r == Ok(rs) <==> forall i | 0 <= i < |rs| :: Printable(rs[i])
  {
    RoundTripIff(rs);
    ReparsedOk(rs);
    if r.Ok? { OrderUnique(AllReparsed(rs), r.value); }
  }

  lemma SortedCanonical(text: string, parsed: seq<Requirement>, sorted: seq<Requirement>)
    requires ParseText(text) == Ok(parsed) && multiset(sorted) == multiset(parsed)
    ensures forall i | 0 <= i < |sorted| :: Canonical(sorted[i])
  {
    TextCanonical(text, parsed);
    AlsoCanonical(parsed, sorted);
  }

  lemma TextCanonical(text: string, parsed: seq<Requirement>)
    requires ParseText(text) == Ok(parsed)
    ensures forall i | 0 <= i < |parsed| :: Canonical(parsed[i])
  {
    ParsedCanonical(Tokenize(text));
  }

  lemma AlsoCanonical(parsed: seq<Requirement>, sorted: seq<Requirement>)
    requires (forall i | 0 <= i < |parsed| :: Canonical(parsed[i])) && multiset(sorted) == multiset(parsed)
    ensures forall i | 0 <= i < |sorted| :: Canonical(sorted[i])
  {
    forall i | 0 <= i < |sorted| ensures Canonical(sorted[i]) {
      var j := SameMember(sorted, parsed, i);
    }
  }

  lemma SameMember(a: seq<Requirement>, b: seq<Requirement>, i: nat) returns (j: nat)
    requires multiset(a) == multiset(b) && i < |a|
    ensures j < |b| && b[j] == a[i]
  {
    assert a[i] in multiset(a);
    assert a[i] in b;
    j :| 0 <= j < |b| && b[j] == a[i];
  }

  /**
   The whole of it: the requirements of the text, all canonical, in the order of their keys.
   A selector with one requirement for a key comes back from its own print without repeated
   values, or its print is refused.
   */
  method Parse(text: string) returns (r: Result<seq<Requirement>>)
    ensures ParsedBy(text, r)
    ensures r.Ok? ==> forall i | 0 <= i < |r.value| :: Canonical(r.value[i])
    ensures forall rs | SelectorOk(rs) && text == Print(rs) ::
              && (r == if forall i | 0 <= i < |rs| :: Parseable(rs[i]) then Ok(AllReparsed(rs)) else Err)
              && (r == Ok(rs) <==> forall i | 0 <= i < |rs| :: Printable(rs[i]))
  {
    var parser := new Parser(text);
    r := parser.Parse();
    if r.Ok? {
      var sorted := SortByKey(r.value);
      SortedCanonical(text, r.value, sorted);
      r := Ok(sorted);
    }
    forall rs | SelectorOk(rs) && text == Print(rs)
      ensures r == if forall i | 0 <= i < |rs| :: Parseable(rs[i]) then Ok(AllReparsed(rs)) else Err
      ensures r == Ok(rs) <==> forall i | 0 <= i < |rs| :: Printable(rs[i])
    {
      ParsedPrint(rs, r);
    }
  }
}
