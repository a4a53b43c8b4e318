/** JSON documents, how they are written, and the tree that the parser makes of them, in the
    characters and the shapes of JSON itself. */
module JsonDocument {
  import opened Wrappers
  import opened Strings
  import opened ExpressionForest
  import opened Placement
  import opened OperatorTable
  import opened Reference
  import opened BareTrees
  import opened Precedence
  import opened ParserCorrect
  import opened JsonLexers
  import opened JsonStream
  import opened JsonReference
  import opened StringGrammar
  import opened JsonLayout

  /** The grammar does not ask for a string as a key. */
  datatype Json =
    | True
    | False
    | Null
    | Number(digits: string)
    | Text(parts: seq<Part>)
    | Array(items: seq<Json>)
    | Object(members: seq<Member>)

  datatype Member = Member(key: Json, value: Json)

  // Numbers are numbers of the lexer, and texts consist of valid parts.
  predicate ValidJson(j: Json) {
    match j
    case Number(digits) => IsNumberSign(digits)
    case Text(parts) => ValidParts(parts)
    case Array(items) => ValidItems(items)
    case Object(members) => ValidMembers(members)
    case _ => true
  }

  predicate ValidItems(items: seq<Json>) {
    items == [] || (ValidItems(items[..|items| - 1]) && ValidJson(items[|items| - 1]))
  }

  predicate ValidMembers(members: seq<Member>) {
    members == [] || (ValidMembers(members[..|members| - 1]) && ValidMember(members[|members| - 1]))
  }

  predicate ValidMember(m: Member) {
    ValidJson(m.key) && ValidJson(m.value)
  }

  // ---------------------------------------------------------------- how documents are written

  function Signs(j: Json): seq<string>
    requires ValidJson(j)
    decreases j, 0
  {
    match j
    case True => ["true"]
    case False => ["false"]
    case Null => ["null"]
    case Number(digits) => [digits]
    case Text(parts) => [Literal(parts)]
    case Array(items) => ["["] + ItemSigns(items) + ["]"]
    case Object(members) => ["{"] + MemberSigns(members) + ["}"]
  }

  function ItemSigns(items: seq<Json>): seq<string>
    requires ValidItems(items)
    decreases items, 1
  {
    if items == [] then []
    else
      var front, last := items[..|items| - 1], items[|items| - 1];
      (if front == [] then [] else ItemSigns(front) + [","]) + Signs(last)
  }

  function MemberSigns(members: seq<Member>): seq<string>
    requires ValidMembers(members)
    decreases members, 1
  {
    if members == [] then []
    else
      var front, last := members[..|members| - 1], members[|members| - 1];
      (if front == [] then [] else MemberSigns(front) + [","]) + SignsOfMember(last)
  }

  function SignsOfMember(m: Member): seq<string>
    requires ValidMember(m)
    decreases m, 1
  {
    Signs(m.key) + [":"] + Signs(m.value)
  }

  // ---------------------------------------------------------------- what tree they have

  /** The node of an array or an object holds nothing, the one part, or one comma node with
      exactly the parts. */
  predicate Holds(kids: Forest, parts: seq<Forest>) {
    if |parts| <= 1 then Trees(kids) == parts
    else |Trees(kids)| == 1 && Trees(kids)[0].info.rtt == COMMA && Trees(Trees(kids)[0].kids) == parts
  }

  /** The shape of a document's tree: a leaf with the length of the text for a word, a number or
      a string; a bracket node over the items; a brace node over one colon node for each member,
      with exactly its key and its value. */
  ghost predicate Shape(f: Forest, j: Json)
    decreases j, 0
  {
    f.Snoc? &&
    match j
    case True => f.info == Value(BOOL, 0, 4) && f.kids.Empty?
    case False => f.info == Value(BOOL, 0, 5) && f.kids.Empty?
    case Null => f.info == Value(NULL, 0, 4) && f.kids.Empty?
    case Number(digits) => f.info == Value(NUMBER, 0, |digits|) && f.kids.Empty?
    case Text(parts) => ValidParts(parts) && f.info == Value(STRING, 0, |Literal(parts)|) && f.kids.Empty?
    case Array(items) => f.info.rtt == BRACKET && exists parts :: Holds(f.kids, parts) && ItemShapes(parts, items)
    case Object(members) => f.info.rtt == BRACE && exists parts :: Holds(f.kids, parts) && MemberShapes(parts, members)
  }

  ghost predicate ItemShapes(parts: seq<Forest>, items: seq<Json>)
    decreases items, 1
  {
    |parts| == |items| && forall i :: 0 <= i < |items| ==> Shape(parts[i], items[i])
  }

  ghost predicate MemberShapes(parts: seq<Forest>, members: seq<Member>)
    decreases members, 1
  {
    |parts| == |members| && forall i :: 0 <= i < |members| ==> MemberShape(parts[i], members[i])
  }

  ghost predicate MemberShape(f: Forest, m: Member)
    decreases m, 1
  {
    && f.Snoc? && f.info.rtt == COLON && |Trees(f.kids)| == 2
    && Shape(Trees(f.kids)[0], m.key) && Shape(Trees(f.kids)[1], m.value)
  }

  // ---------------------------------------------------------------- documents as operands

  ghost function OperandOf(j: Json): Operand
    requires ValidJson(j)
    decreases j, 0
  {
    match j
    case True => Atom(BOOL, 4)
    case False => Atom(BOOL, 5)
    case Null => Atom(NULL, 4)
    case Number(digits) => Atom(NUMBER, |digits|)
    case Text(parts) => Atom(STRING, |Literal(parts)|)
    case Array(items) => Group(BRACKET, if items == [] then NoBody else Inside(ItemsChain(items)))
    case Object(members) => Group(BRACE, if members == [] then NoBody else Inside(MembersChain(members)))
  }

  ghost function ItemsChain(items: seq<Json>): Chain
    requires items != [] && ValidItems(items)
    decreases items, 1
  {
    var last := OperandOf(items[|items| - 1]);
    if |items| == 1 then One(last) else More(ItemsChain(items[..|items| - 1]), COMMA, true, last)
  }

  ghost function MembersChain(members: seq<Member>): Chain
    requires members != [] && ValidMembers(members)
    decreases members, 1
  {
    var front := members[..|members| - 1];
    Linked(if front == [] then None else Some(MembersChain(front)), members[|members| - 1])
  }

  // A member behind the ones before it, if there are any.
  ghost function Linked(front: Option<Chain>, m: Member): Chain
    requires ValidMember(m)
    decreases m, 1
  {
    var key, value := OperandOf(m.key), OperandOf(m.value);
    More(if front.None? then One(key) else More(front.value, COMMA, true, key), COLON, true, value)
  }

  // What the proofs need to know of the JSON table: the comma is weaker than the colon, and chained.
  ghost predicate HasJsonKinds(t: Table) {
    && t.Valid() && |t.kinds| == LEXERS
    && t.kinds[COMMA].Infix? && t.kinds[COMMA].chained && t.kinds[COLON].Infix? && !t.kinds[COLON].chained
    && t.kinds[COMMA].priority < t.kinds[COLON].priority
    && t.kinds[BRACE].Scope? && t.kinds[BRACKET].Scope?
    && t.kinds[STRING].Word? && t.kinds[NUMBER].Word? && t.kinds[BOOL].Word? && t.kinds[NULL].Word?
  }

  lemma {:induction false} OperandFits(t: Table, j: Json)
    requires HasJsonKinds(t) && ValidJson(j)
    ensures WellFormedOperand(t, OperandOf(j))
    decreases j, 0
  {
    match j
    case Array(items) => if items != [] { ItemsFit(t, items); }
    case Object(members) => if members != [] { MembersFit(t, members); }
    case _ =>
  }

  lemma {:induction false} ItemsFit(t: Table, items: seq<Json>)
    requires HasJsonKinds(t) && items != [] && ValidItems(items)
    ensures WellFormedChain(t, ItemsChain(items))
    decreases items, 1
  {
    OperandFits(t, items[|items| - 1]);
    if |items| > 1 { ItemsFit(t, items[..|items| - 1]); }
  }

  lemma {:induction false} MembersFit(t: Table, members: seq<Member>)
    requires HasJsonKinds(t) && members != [] && ValidMembers(members)
    ensures WellFormedChain(t, MembersChain(members))
    decreases members, 1
  {
    MemberFits(t, members[|members| - 1]);
    if |members| > 1 { MembersFit(t, members[..|members| - 1]); }
  }

  lemma {:induction false} MemberFits(t: Table, m: Member)
    requires HasJsonKinds(t) && ValidMember(m)
    ensures WellFormedOperand(t, OperandOf(m.key)) && WellFormedOperand(t, OperandOf(m.value))
    decreases m, 1
  {
    OperandFits(t, m.key);
    OperandFits(t, m.value);
  }

  // ---------------------------------------------------------------- the trees of chains

  // A tree is the one part, or a comma node with the parts.
  ghost predicate Row(t: Table, f: Forest, parts: seq<Forest>)
    requires HasJsonKinds(t)
  {
    && parts != [] && f.Snoc? && f.prev.Empty?
    && if |parts| == 1 then f == parts[0] else f.info == Done(t, COMMA) && Trees(f.kids) == parts
  }

  // One more part behind a comma.
  lemma RowGrows(t: Table, f: Forest, parts: seq<Forest>, x: Forest)
    requires HasJsonKinds(t) && ChainPath(t, f) && x.Snoc? && x.prev.Empty?
    requires |parts| == 1 ==> f.info.rtt != COMMA && (t.IsInfix(f.info) ==> f.info.rtt == COLON)
    ensures Row(t, f, parts) ==> Row(t, Insert(t, f, COMMA, x), parts + [x])
  {
    if Row(t, f, parts) {
      TreesOfLast(f, x);
      TreesOfLast(f.kids, x);
    }
  }

  // A colon behind the last part takes that part as its key.
  lemma RowPairs(t: Table, f: Forest, parts: seq<Forest>, key: Forest, value: Forest)
    requires HasJsonKinds(t) && ChainPath(t, f) && IsOperand(t, key) && value.Snoc? && value.prev.Empty?
    ensures Row(t, f, parts + [key]) ==>
              Row(t, Insert(t, f, COLON, value), parts + [Snoc(Empty, 0, Done(t, COLON), value.(prev := key))])
  {
    if Row(t, f, parts + [key]) && parts != [] {
      assert (parts + [key])[..|parts|] == parts;
      assert f.kids.(prev := Empty) == key && Trees(f.kids.prev) == parts;
    }
  }

  lemma {:induction false} OperandShape(t: Table, j: Json)
    requires HasJsonKinds(t) && ValidJson(j)
    ensures WellFormedOperand(t, OperandOf(j)) && IsOperand(t, OperandTree(t, OperandOf(j)))
    ensures Shape(OperandTree(t, OperandOf(j)), j)
    decreases j, 0
  {
    OperandFits(t, j);
    TreeIsOperand(t, OperandOf(j));
    match j
    case Array(items) =>
      var parts := [];
      if items != [] {
        parts := ItemsShape(t, items);
        RowIsHeld(t, ChainTree(t, ItemsChain(items)), parts);
      }
      assert Holds(OperandTree(t, OperandOf(j)).kids, parts) && ItemShapes(parts, items);
    case Object(members) =>
      var parts := [];
      if members != [] {
        parts := MembersShape(t, members);
        RowIsHeld(t, ChainTree(t, MembersChain(members)), parts);
      }
      assert Holds(OperandTree(t, OperandOf(j)).kids, parts) && MemberShapes(parts, members);
    case _ =>
  }

  lemma RowIsHeld(t: Table, f: Forest, parts: seq<Forest>)
    requires HasJsonKinds(t)
    ensures Row(t, f, parts) ==> Holds(f, parts)
  {
    if Row(t, f, parts) { TreesOfLast(f, f); }
  }

  lemma OneIsItself(t: Table, o: Operand)
    requires WellFormedOperand(t, o)
    ensures ChainTree(t, One(o)) == OperandTree(t, o)
  {}

  lemma {:induction false} ItemsShape(t: Table, items: seq<Json>) returns (parts: seq<Forest>)
    requires HasJsonKinds(t) && items != [] && ValidItems(items)
    ensures WellFormedChain(t, ItemsChain(items)) && ItemShapes(parts, items)
    ensures Row(t, ChainTree(t, ItemsChain(items)), parts) && (|parts| == 1 ==> IsOperand(t, parts[0]))
    decreases items, 1
  {
    var front, last := items[..|items| - 1], items[|items| - 1];
    var o := OperandOf(last);
    OperandShape(t, last);
    ItemsFit(t, items);
    if |items| == 1 {
      OneIsItself(t, o);
      parts := [OperandTree(t, o)];
    } else {
      parts := ItemsShape(t, front);
      ChainTreeGrows(t, ItemsChain(front), COMMA, true, o);
      RowGrows(t, ChainTree(t, ItemsChain(front)), parts, OperandTree(t, o));
      parts := parts + [OperandTree(t, o)];
    }
  }

  lemma PairShape(t: Table, m: Member, key: Forest, value: Forest)
    requires HasJsonKinds(t) && IsOperand(t, key) && IsOperand(t, value) && Shape(key, m.key) && Shape(value, m.value)
    ensures MemberShape(Snoc(Empty, 0, Done(t, COLON), value.(prev := key)), m)
  {
    TreesOfLast(key, value);
    TreesOfLast(key, key);
  }

  // What is known of the members before one more is linked.
  ghost predicate MembersDone(t: Table, front: Option<Chain>, before: seq<Forest>)
    requires HasJsonKinds(t)
  {
    if front.None? then before == []
    else && WellFormedChain(t, front.value) && Row(t, ChainTree(t, front.value), before)
         && (|before| == 1 ==> before[0].Snoc? && before[0].info.rtt == COLON)
  }

  lemma MembersGrow(before: seq<Forest>, front: seq<Member>, x: Forest, last: Member)
    requires MemberShapes(before, front) && MemberShape(x, last)
    ensures MemberShapes(before + [x], front + [last])
    ensures |before + [x]| == 1 ==> (before + [x])[0].Snoc? && (before + [x])[0].info.rtt == COLON
  {}

  lemma {:induction false} MembersShape(t: Table, members: seq<Member>) returns (parts: seq<Forest>)
    requires HasJsonKinds(t) && members != [] && ValidMembers(members)
    ensures MembersDone(t, Some(MembersChain(members)), parts) && MemberShapes(parts, members)
    decreases members, 1
  {
    var front, last := members[..|members| - 1], members[|members| - 1];
    MembersFit(t, members);
    assert members == front + [last];
    var before, x := [], Empty;
    if front == [] {
      x := LinkedShape(t, None, before, last);
    } else {
      before := MembersShape(t, front);
      x := LinkedShape(t, Some(MembersChain(front)), before, last);
    }
    MembersGrow(before, front, x, last);
    parts := before + [x];
  }

  // One more member: a comma and its key, or the key alone, then the colon and its value.
  lemma {:induction false} LinkedShape(t: Table, front: Option<Chain>, before: seq<Forest>, m: Member)
    returns (x: Forest)
    requires HasJsonKinds(t) && ValidMember(m) && WellFormedChain(t, Linked(front, m)) && MembersDone(t, front, before)
    ensures MemberShape(x, m) && Row(t, ChainTree(t, Linked(front, m)), before + [x])
    decreases m, 1
  {
    var key, value := OperandTree(t, OperandOf(m.key)), OperandTree(t, OperandOf(m.value));
    OperandShape(t, m.key);
    OperandShape(t, m.value);
    PairShape(t, m, key, value);
    var c := if front.None? then One(OperandOf(m.key)) else More(front.value, COMMA, true, OperandOf(m.key));
    if front.None? {
      OneIsItself(t, OperandOf(m.key));
    } else {
      ChainTreeGrows(t, front.value, COMMA, true, OperandOf(m.key));
      RowGrows(t, ChainTree(t, front.value), before, key);
    }
    ChainTreeGrows(t, c, COLON, true, OperandOf(m.value));
    RowPairs(t, ChainTree(t, c), before, key, value);
    x := Snoc(Empty, 0, Done(t, COLON), value.(prev := key));
  }

  // ---------------------------------------------------------------- the signs and their tokens

  // Signs that are read as these tokens, with every number but the last sign followed by its end.
  ghost predicate Written(signs: seq<string>, toks: seq<Token>) {
    && AreSigns(signs) && (forall i :: 0 <= i < |signs| ==> signs[i] != "") && TokensOf(signs) == toks
    && forall i :: 0 <= i < |signs| - 1 && IsNumberSign(signs[i]) ==> EndsNumber(signs[i + 1][0])
  }

  lemma {:induction false} TokensOfSum(a: seq<string>, b: seq<string>)
    requires forall i :: 0 <= i < |a| ==> a[i] != ""
    requires forall i :: 0 <= i < |b| ==> b[i] != ""
    ensures forall i :: 0 <= i < |a + b| ==> (a + b)[i] != ""
    ensures TokensOf(a + b) == TokensOf(a) + TokensOf(b)
  {
    if a == [] {
      assert a + b == b;
    } else {
      assert (a + b)[1..] == a[1..] + b;
      TokensOfSum(a[1..], b);
    }
  }

  lemma WrittenSum(a: seq<string>, s: seq<Token>, b: seq<string>, t: seq<Token>)
    requires a != [] && b != [] && IsNumberSign(a[|a| - 1]) ==> b[0] != "" && EndsNumber(b[0][0])
    ensures Written(a, s) && Written(b, t) ==> Written(a + b, s + t)
  {
    if Written(a, s) && Written(b, t) { TokensOfSum(a, b); }
  }

  lemma WrittenOne(sign: string)
    requires IsSign(sign)
    ensures sign != "" && Written([sign], [TokenOf(sign)])
    ensures IsNumberSign(sign) ==> !IsPunctuation(sign) && sign[0] != '\"'
  {
    if IsNumberSign(sign) { NumberSignFirst(sign); }
  }

  // Signs between an opening and a closing one.
  lemma WrittenScope(open: string, a: seq<string>, s: seq<Token>, close: string)
    requires (open == "[" && close == "]") || (open == "{" && close == "}")
    ensures Written(a, s) ==> Written([open] + a + [close], [TokenOf(open)] + s + [TokenOf(close)])
  {
    WrittenOne(open);
    WrittenOne(close);
    WrittenSum([open], [TokenOf(open)], a, s);
    WrittenSum([open] + a, [TokenOf(open)] + s, [close], [TokenOf(close)]);
  }

  // Signs on both sides of a comma or a colon.
  lemma WrittenLink(a: seq<string>, s: seq<Token>, op: string, b: seq<string>, t: seq<Token>)
    requires op == "," || op == ":"
    ensures Written(a, s) && Written(b, t) ==> Written(a + [op] + b, s + [TokenOf(op)] + t)
  {
    WrittenOne(op);
    WrittenSum(a, s, [op], [TokenOf(op)]);
    WrittenSum(a + [op], s + [TokenOf(op)], b, t);
  }

  lemma JsonKinds()
    ensures HasJsonKinds(JSON)
  {}

  lemma GroupWritten(r: nat, open: string, a: seq<string>, close: string, body: Body)
    requires (r == BRACKET && open == "[" && close == "]") || (r == BRACE && open == "{" && close == "}")
    requires WellFormedOperand(JSON, Group(r, body))
    requires Written(a, if body.NoBody? then [] else ChainTokens(JSON, body.chain))
    ensures Written([open] + a + [close], OperandTokens(JSON, Group(r, body)))
  {
    WrittenScope(open, a, if body.NoBody? then [] else ChainTokens(JSON, body.chain), close);
  }

  lemma {:induction false} OperandWritten(j: Json)
    requires ValidJson(j)
    ensures WellFormedOperand(JSON, OperandOf(j)) && Written(Signs(j), OperandTokens(JSON, OperandOf(j)))
    decreases j, 0
  {
    JsonKinds();
    OperandFits(JSON, j);
    match j
    case Array(items) =>
      if items != [] { ItemsWritten(items); }
      GroupWritten(BRACKET, "[", ItemSigns(items), "]", OperandOf(j).body);
    case Object(members) =>
      if members != [] { MembersWritten(members); }
      GroupWritten(BRACE, "{", MemberSigns(members), "}", OperandOf(j).body);
    case _ => LeafWritten(j);
  }

  lemma LeafWritten(j: Json)
    requires ValidJson(j) && !j.Array? && !j.Object? && WellFormedOperand(JSON, OperandOf(j))
    ensures Written(Signs(j), OperandTokens(JSON, OperandOf(j)))
  {
    if j.Text? {
      assert IsStringSign(Literal(j.parts)) && Literal(j.parts)[0] == '\"';
    }
    if j.Number? { NumberSignFirst(j.digits); }
    WrittenOne(Signs(j)[0]);
  }

  lemma {:induction false} ItemsWritten(items: seq<Json>)
    requires ValidItems(items) && items != []
    ensures WellFormedChain(JSON, ItemsChain(items))
    ensures Written(ItemSigns(items), ChainTokens(JSON, ItemsChain(items)))
    decreases items, 1
  {
    var front, last := items[..|items| - 1], items[|items| - 1];
    JsonKinds();
    ItemsFit(JSON, items);
    OperandWritten(last);
    if front == [] {
      assert [] + Signs(last) == Signs(last);
    } else {
      ItemsWritten(front);
      WrittenLink(ItemSigns(front), ChainTokens(JSON, ItemsChain(front)), ",",
                  Signs(last), OperandTokens(JSON, OperandOf(last)));
    }
  }

  lemma Regroup<T>(a: seq<T>, k: seq<T>, op: seq<T>, v: seq<T>)
    ensures a + (k + op + v) == (a + k) + op + v
  {}

  lemma MemberWritten(m: Member)
    requires ValidMember(m)
    ensures WellFormedOperand(JSON, OperandOf(m.key)) && Written(Signs(m.key), OperandTokens(JSON, OperandOf(m.key)))
    ensures WellFormedOperand(JSON, OperandOf(m.value))
    ensures Written(Signs(m.value), OperandTokens(JSON, OperandOf(m.value)))
    decreases m, 1
  {
    OperandWritten(m.key);
    OperandWritten(m.value);
  }

  lemma {:induction false} MembersWritten(members: seq<Member>)
    requires ValidMembers(members) && members != []
    ensures WellFormedChain(JSON, MembersChain(members))
    ensures Written(MemberSigns(members), ChainTokens(JSON, MembersChain(members)))
    decreases members, 1
  {
    var front, last := members[..|members| - 1], members[|members| - 1];
    JsonKinds();
    MembersFit(JSON, members);
    MemberWritten(last);
    var key, value := OperandTokens(JSON, OperandOf(last.key)), OperandTokens(JSON, OperandOf(last.value));
    if front == [] {
      WrittenLink(Signs(last.key), key, ":", Signs(last.value), value);
      assert [] + SignsOfMember(last) == SignsOfMember(last);
    } else {
      MembersWritten(front);
      var a, s := MemberSigns(front), ChainTokens(JSON, MembersChain(front));
      WrittenLink(a, s, ",", Signs(last.key), key);
      WrittenLink(a + [","] + Signs(last.key), s + [TokenOf(",")] + key, ":", Signs(last.value), value);
      Regroup(a + [","], Signs(last.key), [":"], Signs(last.value));
    }
  }

  // ---------------------------------------------------------------- from the text to the shape

  lemma WholeEnds(j: Json, gaps: seq<string>)
    requires ValidJson(j) && |gaps| == |Signs(j)| + 1 && (j.Number? ==> gaps[|gaps| - 1] != "")
    requires forall i :: 0 <= i < |Signs(j)| ==> Signs(j)[i] != ""
    requires forall i :: 0 <= i < |Signs(j)| - 1 && IsNumberSign(Signs(j)[i]) ==> EndsNumber(Signs(j)[i + 1][0])
    ensures NumbersEnd(Signs(j), gaps)
  {
    var last := Signs(j)[|Signs(j)| - 1];
    if IsNumberSign(last) { NumberSignFirst(last); }
  }

  /** The text of a document is spelled by its chain. */
  lemma DocumentSpells(j: Json, gaps: seq<string>)
    requires ValidJson(j) && AreGaps(gaps, Signs(j)) && (j.Number? ==> gaps[|gaps| - 1] != "")
    ensures Spells(Layout(Signs(j), gaps), One(OperandOf(j)))
  {
    OperandWritten(j);
    WholeEnds(j, gaps);
    LayoutLexes(Signs(j), gaps);
    KeptIsSolid(Lexemes(Layout(Signs(j), gaps)).value, 0);
  }

  /** A document written with any blanks between its signs, and with one behind it if it is a number,
      is read to the end, and the tree is complete and has the shape of the document: an array's
      bracket holds its items, an object's brace one colon node for each member, and one comma
      node stands above them if and only if there are two or more. Under limits the same holds
      exactly when the tokens fit. */
  lemma DocumentIsParsed(j: Json, gaps: seq<string>, lim: Limits)
    requires ValidJson(j) && AreGaps(gaps, Signs(j)) && (j.Number? ==> gaps[|gaps| - 1] != "")
    ensures var s := Layout(Signs(j), gaps);
            var (y, rest, ok) := Unlimited(Stream(START, ""), s);
            && ok && rest == "" && y.text == s && y.st.Complete() && Shape(Strip(y.st.root), j)
            && (ParseStream(Stream(START, ""), s, lim).2 <==> TokensFit(Stream(START, ""), s, lim))
            && (TokensFit(Stream(START, ""), s, lim) ==>
                  ParseStream(Stream(START, ""), s, lim) == Unlimited(Stream(START, ""), s))
  {
    DocumentSpells(j, gaps);
    JsonTextBuildsReference(Layout(Signs(j), gaps), One(OperandOf(j)), lim);
    JsonKinds();
    OperandShape(JSON, j);
    OneIsItself(JSON, OperandOf(j));
  }
}
