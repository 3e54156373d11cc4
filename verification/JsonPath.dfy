/**
 Navigation in a JSON tree by a dotted path.  A part of the path is a key, an index in brackets, or a key
 followed by an index; an index that is not a number from 0 on is ignored.
 */
module JsonPath {
  import opened Collections

  datatype Json = Null | Scalar(text: string) | Array(items: seq<Json>) | Object(members: map<string, Json>)

  // ---------------------------------------------------------------- text

  const MAX_INT: int := 0x7fff_ffff_ffff_ffff

  function Split(path: string): (parts: seq<string>)
    ensures parts != []
  {
    if path == "" then [""] else
      var rest := Split(path[1..]);
      if path[0] == '.' then [""] + rest else [[path[0]] + rest[0]] + rest[1..]
  }

  predicate StartsWith(text: string, prefix: string) {
    prefix <= text
  }

  function TrimPrefix(path: string): string {
    if StartsWith(path, "$.") then path[2..] else path
  }

  /** The position of the first character, or -1. */
  function IndexOf(text: string, c: char): (i: int)
    ensures -1 <= i < |text|
    ensures i >= 0 ==> text[i] == c
  {
    if text == "" then -1
    else if text[0] == c then 0
    else
      var i := IndexOf(text[1..], c);
      if i < 0 then -1 else i + 1
  }

  predicate AllDigits(text: string) {
    forall i :: 0 <= i < |text| ==> '0' <= text[i] <= '9'
  }

  function Number(digits: string): nat
    requires AllDigits(digits)
  {
    if digits == "" then 0 else
      10 * Number(digits[..|digits| - 1]) + (digits[|digits| - 1] - '0') as nat
  }

  /** Decimal digits with an optional sign, within 64 bits. */
  function Atoi(text: string): Option<int> {
    var signed := text != "" && (text[0] == '-' || text[0] == '+');
    var digits := if signed then text[1..] else text;
    if digits == "" || !AllDigits(digits) then None
    else
      var size: int := Number(digits);
      var value := if signed && text[0] == '-' then -size else size;
      if -MAX_INT - 1 <= value <= MAX_INT then Some(value) else None
  }

  // ---------------------------------------------------------------- what a path means

  /** One step down the tree. */
  datatype Move = Key(key: string) | Index(index: nat)

  function IndexMove(text: string): seq<Move> {
    match Atoi(text)
    case Some(value) => if value >= 0 then [Index(value)] else []
    case None => []
  }

  function KeyMove(key: string): seq<Move> {
    if key == "" then [] else [Key(key)]
  }

  function PartMoves(part: string): seq<Move> {
    var i := IndexOf(part, '[');
    if i >= 0 && part[|part| - 1] == ']' then KeyMove(part[..i]) + IndexMove(part[i + 1..|part| - 1])
    else KeyMove(part)
  }

  /** The moves of all parts, given those of one. */
  function Moves<T>(of: T -> seq<Move>, parts: seq<T>): seq<Move> {
    if parts == [] then [] else of(parts[0]) + Moves(of, parts[1..])
  }

  function PartsMoves(path: string): seq<Move> {
    Moves(PartMoves, Split(path))
  }

  function PathMoves(path: string): seq<Move> {
    PartsMoves(TrimPrefix(path))
  }

  function Step(data: Json, move: Move): Json {
    match move
    case Key(k) => if data.Object? && k in data.members then data.members[k] else Null
    case Index(i) => if data.Array? && i < |data.items| then data.items[i] else Null
  }

  function Walk(data: Json, moves: seq<Move>): Json
    decreases |moves|
  {
    if moves == [] then data else Walk(Step(data, moves[0]), moves[1..])
  }

  function Navigate(data: Json, path: string): Json {
    Walk(data, PathMoves(path))
  }

  lemma {:induction false} WalkInTwo(data: Json, a: seq<Move>, b: seq<Move>)
    ensures Walk(data, a + b) == Walk(Walk(data, a), b)
    decreases |a|
  {
    if a == [] {
      assert a + b == b;
    } else {
      WalkInTwo(Step(data, a[0]), a[1..], b);
      assert (a + b)[1..] == a[1..] + b;
    }
  }

  lemma {:induction false} WalkFromNull(moves: seq<Move>)
    ensures Walk(Null, moves) == Null
  {
    if moves != [] {
      WalkFromNull(moves[1..]);
    }
  }

  lemma {:induction false} MovesInTwo<T>(of: T -> seq<Move>, a: seq<T>, b: seq<T>)
    ensures Moves(of, a + b) == Moves(of, a) + Moves(of, b)
  {
    if a == [] {
      assert a + b == b;
    } else {
      MovesInTwo(of, a[1..], b);
      assert (a + b)[1..] == a[1..] + b && (a + b)[0] == a[0];
    }
  }

  /** The parts of a text with one more character in front. */
  function Extend(c: char, parts: seq<string>): seq<string>
    requires parts != []
  {
    if c == '.' then [""] + parts else [[c] + parts[0]] + parts[1..]
  }

  lemma SplitNext(c: char, rest: string)
    ensures Split([c] + rest) == Extend(c, Split(rest))
  {
    assert ([c] + rest)[1..] == rest;
  }

  lemma ExtendSum(c: char, a: seq<string>, b: seq<string>)
    requires a != []
    ensures Extend(c, a + b) == Extend(c, a) + b
  {
    assert (a + b)[0] == a[0] && (a + b)[1..] == a[1..] + b;
    if c == '.' {
      assert [""] + (a + b) == [""] + a + b;
    } else {
      assert [[c] + a[0]] + (a[1..] + b) == [[c] + a[0]] + a[1..] + b;
    }
  }

  lemma {:induction false} SplitInTwo(a: string, b: string)
    ensures Split(a + "." + b) == Split(a) + Split(b)
  {
    if a == "" {
      assert a + "." + b == ['.'] + b;
      SplitNext('.', b);
    } else {
      var c, rest := a[0], a[1..];
      SplitInTwo(rest, b);
      assert a == [c] + rest && a + "." + b == [c] + (rest + "." + b);
      SplitNext(c, rest);
      SplitNext(c, rest + "." + b);
      ExtendSum(c, Split(rest), Split(b));
    }
  }

  // ---------------------------------------------------------------- composition of paths

  /** A tree that the moves, and only as many, lead down to a leaf. */
  function Build(moves: seq<Move>): Json {
    if moves == [] then Scalar("") else
      var below := Build(moves[1..]);
      match moves[0]
      case Key(k) => Object(map[k := below])
      case Index(i) => Array(seq(i + 1, _ => below))
  }

  lemma {:induction false} BuildIsReached(moves: seq<Move>)
    ensures Walk(Build(moves), moves) == Scalar("")
  {
    if moves != [] {
      BuildIsReached(moves[1..]);
    }
  }

  lemma {:induction false} BuildNeedsEveryMove(moves: seq<Move>, other: seq<Move>)
    requires Walk(Build(moves), other) == Scalar("")
    ensures |other| == |moves|
  {
    if other != [] {
      var next := Step(Build(moves), other[0]);
      WalkFromNull(other[1..]);
      assert next != Null;
      BuildNeedsEveryMove(moves[1..], other[1..]);
    }
  }

  lemma MovesDiffer(a: seq<Move>, b: seq<Move>)
    requires |a| != |b|
    ensures Walk(Build(a), a) != Walk(Build(a), b)
  {
    BuildIsReached(a);
    if Walk(Build(a), b) == Scalar("") {
      BuildNeedsEveryMove(a, b);
    }
  }

  lemma NoDollarPrefix(p1: string, p2: string)
    requires p1 != "$" && !StartsWith(p1, "$.")
    ensures !StartsWith(p1 + "." + p2, "$.")
  {
    var joined := p1 + "." + p2;
    assert p1 == "" ==> joined[0] == '.';
    assert |p1| == 1 ==> p1 == [joined[0]];
    assert |p1| >= 2 ==> p1[..2] == joined[..2];
  }

  lemma JoinedMoves(p1: string, p2: string)
    ensures var joined := p1 + "." + p2;
      PathMoves(joined) == if p1 == "$" then PartsMoves(p2) else PathMoves(p1) + PartsMoves(p2)
  {
    var joined := p1 + "." + p2;
    if p1 == "$" {
      assert joined[2..] == p2;
    } else {
      var t := TrimPrefix(p1);
      if StartsWith(p1, "$.") {
        assert joined[..2] == p1[..2];
        assert joined[2..] == t + "." + p2;
      } else {
        NoDollarPrefix(p1, p2);
      }
      assert TrimPrefix(joined) == t + "." + p2;
      SplitInTwo(t, p2);
      MovesInTwo(PartMoves, Split(t), Split(p2));
    }
  }

  lemma DollarMoves(p: string)
    ensures PathMoves("$") == [Key("$")]
    ensures PartsMoves(p) == if StartsWith(p, "$.") then [Key("$")] + PathMoves(p) else PathMoves(p)
  {
    var d: string := "$";
    SplitNext('$', "");
    assert ['$'] + "" == d && Split("") == [""];
    assert [""][1..] == [] && Split(d) == [d];
    assert d[1..] == "" && PartMoves(d) == [Key(d)];
    assert [d][1..] == [] && PartsMoves(d) == [Key(d)];
    if StartsWith(p, "$.") {
      assert p == d + "." + p[2..];
      SplitInTwo(d, p[2..]);
      MovesInTwo(PartMoves, [d], Split(p[2..]));
    }
  }

  /** Navigating a joined path is navigating its halves one after the other, for every tree, exactly when the
      first half being "$" and the second half starting with "$." go together. */
  lemma CompositionIff(p1: string, p2: string)
    ensures (forall data :: Navigate(data, p1 + "." + p2) == Navigate(Navigate(data, p1), p2))
       <==> ((p1 == "$") == StartsWith(p2, "$."))
  {
    var joined, apart := PathMoves(p1 + "." + p2), PathMoves(p1) + PathMoves(p2);
    JoinedMoves(p1, p2);
    DollarMoves(p2);
    forall data ensures Navigate(Navigate(data, p1), p2) == Walk(data, apart) {
      WalkInTwo(data, PathMoves(p1), PathMoves(p2));
    }
    if (p1 == "$") == StartsWith(p2, "$.") {
      assert joined == apart;
    } else {
      assert |joined| != |apart|;
      MovesDiffer(apart, joined);
      var tree := Build(apart);
      assert Navigate(tree, p1 + "." + p2) != Navigate(Navigate(tree, p1), p2);
    }
  }

  // ---------------------------------------------------------------- what is found

  /** The digits of a number. */
  function Decimal(n: nat): (digits: string)
    ensures digits != ""
  {
    var digit := ["0123456789"[n % 10]];
    if n < 10 then digit else Decimal(n / 10) + digit
  }

  lemma {:induction false} DecimalIsNumber(n: nat)
    ensures AllDigits(Decimal(n)) && Number(Decimal(n)) == n
  {
    var d := n % 10;
    assert "0123456789"[d] - '0' == d as char && '0' <= "0123456789"[d] <= '9';
    if n < 10 {
      assert Decimal(n)[..0] == "";
    } else {
      DecimalIsNumber(n / 10);
      assert Decimal(n)[..|Decimal(n)| - 1] == Decimal(n / 10);
    }
  }

  lemma DecimalReads(n: nat)
    requires n <= 0x7fff_ffff_ffff_ffff
    ensures IndexMove(Decimal(n)) == [Index(n)] && '.' !in Decimal(n)
  {
    DecimalIsNumber(n);
    assert '0' <= Decimal(n)[0] <= '9';
  }

  /** Reading what was written gives the number back, within 64 bits; a sign is allowed in front. */
  lemma AtoiReads(n: nat)
    ensures Atoi(Decimal(n)) == Atoi("+" + Decimal(n)) == if n <= 0x7fff_ffff_ffff_ffff then Some(n) else None
    ensures Atoi("-" + Decimal(n)) == if n <= 0x8000_0000_0000_0000 then Some(-(n as int)) else None
  {
    DecimalIsNumber(n);
    UnsignedReads(Decimal(n));
    SignedReads('+', Decimal(n));
    SignedReads('-', Decimal(n));
  }

  lemma UnsignedReads(digits: string)
    requires digits != "" && AllDigits(digits)
    ensures Atoi(digits) == if Number(digits) <= 0x7fff_ffff_ffff_ffff then Some(Number(digits)) else None
  {
    assert '0' <= digits[0] <= '9';
  }

  lemma SignedReads(sign: char, digits: string)
    requires (sign == '+' || sign == '-') && digits != "" && AllDigits(digits)
    ensures var value: int := if sign == '-' then -(Number(digits) as int) else Number(digits);
      Atoi([sign] + digits) == if -0x8000_0000_0000_0000 <= value <= 0x7fff_ffff_ffff_ffff then Some(value) else None
  {
    assert ([sign] + digits)[1..] == digits;
  }

  /** Text with another character in it is no number, and neither is a sign alone. */
  lemma AtoiRefuses(text: string, i: nat)
    requires i < |text| && !('0' <= text[i] <= '9') && (i > 0 || text == "+" || text == "-" || text[0] !in "+-")
    ensures Atoi(text) == None && Atoi("") == None
  {
    if i > 0 {
      assert text[1..][i - 1] == text[i];
    }
  }

  /** A key, an index, or both. */
  datatype Part = Part(key: string, index: Option<nat>)

  predicate WellFormed(part: Part) {
    && '.' !in part.key && '[' !in part.key && (part.key == "" ==> part.index.Some?)
    && (part.index.Some? ==> part.index.value <= 0x7fff_ffff_ffff_ffff)
  }

  function PartText(part: Part): string {
    match part.index
    case Some(i) => part.key + "[" + Decimal(i) + "]"
    case None => part.key
  }

  function PathText(parts: seq<Part>): string
    requires parts != []
  {
    if |parts| == 1 then PartText(parts[0]) else PartText(parts[0]) + "." + PathText(parts[1..])
  }

  /** The part leads from the node to that member, or to that item of the member. */
  ghost predicate IsChild(node: Json, part: Part, child: Json) {
    exists member :: IsMember(node, part.key, member) && IsItem(member, part.index, child)
  }

  predicate IsMember(node: Json, key: string, member: Json) {
    if key == "" then member == node else node.Object? && key in node.members && node.members[key] == member
  }

  predicate IsItem(node: Json, index: Option<nat>, item: Json) {
    match index
    case Some(i) => node.Array? && i < |node.items| && node.items[i] == item
    case None => item == node
  }

  lemma {:induction false} SplitWithoutDot(text: string)
    requires '.' !in text
    ensures Split(text) == [text]
  {
    if text != "" {
      SplitWithoutDot(text[1..]);
      assert [text[0]] + text[1..] == text;
    }
  }

  lemma {:induction false} IndexOfBehind(key: string, rest: string)
    requires '[' !in key
    ensures IndexOf(key, '[') == -1 && IndexOf(key + "[" + rest, '[') == |key|
  {
    if key != "" {
      IndexOfBehind(key[1..], rest);
      assert (key + "[" + rest)[1..] == key[1..] + "[" + rest;
    }
  }

  function IndexMoves(index: Option<nat>): seq<Move> {
    if index.Some? then [Index(index.value)] else []
  }

  lemma PartTextMoves(part: Part)
    requires WellFormed(part)
    ensures PartMoves(PartText(part)) == KeyMove(part.key) + IndexMoves(part.index) && '.' !in PartText(part)
  {
    if part.index.Some? {
      DecimalReads(part.index.value);
    }
    BracketMoves(part.key, if part.index.Some? then Decimal(part.index.value) else "");
  }

  function MovesOf(part: Part): seq<Move> {
    KeyMove(part.key) + IndexMoves(part.index)
  }

  function AllMoves(parts: seq<Part>): seq<Move> {
    Moves(MovesOf, parts)
  }

  lemma {:induction false} PathTextMoves(parts: seq<Part>)
    requires parts != [] && forall p :: p in parts ==> WellFormed(p)
    ensures PartsMoves(PathText(parts)) == AllMoves(parts)
  {
    var text := PartText(parts[0]);
    PartTextMoves(parts[0]);
    SplitWithoutDot(text);
    OnePartMoves(text);
    if |parts| == 1 {
      assert AllMoves(parts[1..]) == [];
    } else {
      PathTextMoves(parts[1..]);
      SplitInTwo(text, PathText(parts[1..]));
      MovesInTwo(PartMoves, [text], Split(PathText(parts[1..])));
    }
  }

  lemma OnePartMoves(text: string)
    ensures Moves(PartMoves, [text]) == PartMoves(text)
  {
    assert [text][1..] == [] && Moves(PartMoves, []) == [];
  }

  lemma ChildIsReached(node: Json, part: Part, child: Json)
    requires IsChild(node, part, child)
    ensures Walk(node, KeyMove(part.key) + IndexMoves(part.index)) == child
  {
    var member :| IsMember(node, part.key, member) && IsItem(member, part.index, child);
    WalkInTwo(node, KeyMove(part.key), IndexMoves(part.index));
  }

  lemma NoChildIsNull(node: Json, part: Part)
    requires forall child :: !IsChild(node, part, child)
    ensures Walk(node, KeyMove(part.key) + IndexMoves(part.index)) == Null
  {
    var member := Walk(node, KeyMove(part.key));
    WalkInTwo(node, KeyMove(part.key), IndexMoves(part.index));
    if IsMember(node, part.key, member) {
      assert !IsChild(node, part, Walk(member, IndexMoves(part.index)));
    } else {
      WalkFromNull(IndexMoves(part.index));
    }
  }

  /** From each node the next part leads to the next node. */
  ghost predicate IsBranch(nodes: seq<Json>, parts: seq<Part>) {
    |nodes| == |parts| + 1 && forall i :: 0 <= i < |parts| ==> IsChild(nodes[i], parts[i], nodes[i + 1])
  }

  lemma {:induction false} BranchIsWalked(nodes: seq<Json>, parts: seq<Part>)
    requires IsBranch(nodes, parts)
    ensures Walk(nodes[0], AllMoves(parts)) == nodes[|parts|]
  {
    if parts != [] {
      var first := KeyMove(parts[0].key) + IndexMoves(parts[0].index);
      ChildIsReached(nodes[0], parts[0], nodes[1]);
      WalkInTwo(nodes[0], first, AllMoves(parts[1..]));
      BranchIsWalked(nodes[1..], parts[1..]);
    }
  }

  /** The path may be written with "$." in front; without it the first part must not be a "$" that another follows. */
  predicate Writes(path: string, parts: seq<Part>)
    requires parts != []
  {
    path == "$." + PathText(parts) || (path == PathText(parts) && (|parts| > 1 ==> parts[0] != Part("$", None)))
  }

  lemma WrittenMoves(path: string, parts: seq<Part>)
    requires parts != [] && (forall p :: p in parts ==> WellFormed(p)) && Writes(path, parts)
    ensures PathMoves(path) == AllMoves(parts)
  {
    PathTextMoves(parts);
    var text := PathText(parts);
    if path == "$." + text {
      assert path[2..] == text;
    } else {
      NotTrimmed(parts);
    }
  }

  lemma {:induction false} NotTrimmed(parts: seq<Part>)
    requires parts != [] && WellFormed(parts[0]) && (|parts| > 1 ==> parts[0] != Part("$", None))
    ensures !StartsWith(PathText(parts), "$.")
  {
    PartTextMoves(parts[0]);
    var first := PartText(parts[0]);
    if |parts| == 1 {
      NoDotNoPrefix(first);
    } else {
      assert first != "$" && !StartsWith(first, "$.") by {
        NoDotNoPrefix(first);
      }
      NoDollarPrefix(first, PathText(parts[1..]));
    }
  }

  lemma NoDotNoPrefix(text: string)
    requires '.' !in text
    ensures !StartsWith(text, "$.")
  {
    assert "$."[1] == '.';
  }

  /** Navigation ends at the node to which the parts of the path lead, one after another. */
  lemma FindsBranch(nodes: seq<Json>, parts: seq<Part>, path: string)
    requires parts != [] && (forall p :: p in parts ==> WellFormed(p)) && Writes(path, parts) && IsBranch(nodes, parts)
    ensures Navigate(nodes[0], path) == nodes[|parts|]
  {
    WrittenMoves(path, parts);
    BranchIsWalked(nodes, parts);
  }

  /** Where a part leads nowhere, navigation finds nothing, whatever follows. */
  lemma FindsNothing(nodes: seq<Json>, parts: seq<Part>, n: nat, path: string)
    requires n < |parts| && (forall p :: p in parts ==> WellFormed(p)) && Writes(path, parts) && IsBranch(nodes, parts[..n])
    requires forall child :: !IsChild(nodes[n], parts[n], child)
    ensures Navigate(nodes[0], path) == Null
  {
    WrittenMoves(path, parts);
    BranchIsWalked(nodes, parts[..n]);
    NoChildIsNull(nodes[n], parts[n]);
    StopsBehind(nodes[0], nodes[n], parts[..n], parts[n..]);
    assert parts == parts[..n] + parts[n..];
  }

  lemma StopsBehind(root: Json, node: Json, front: seq<Part>, rest: seq<Part>)
    requires Walk(root, AllMoves(front)) == node
    requires rest != [] && Walk(node, KeyMove(rest[0].key) + IndexMoves(rest[0].index)) == Null
    ensures Walk(root, AllMoves(front + rest)) == Null
  {
    MovesInTwo(MovesOf, front, rest);
    WalkInTwo(root, AllMoves(front), AllMoves(rest));
    StopsThere(node, rest);
  }

  lemma StopsThere(node: Json, parts: seq<Part>)
    requires parts != [] && Walk(node, KeyMove(parts[0].key) + IndexMoves(parts[0].index)) == Null
    ensures Walk(node, AllMoves(parts)) == Null
  {
    WalkInTwo(node, KeyMove(parts[0].key) + IndexMoves(parts[0].index), AllMoves(parts[1..]));
    WalkFromNull(AllMoves(parts[1..]));
  }

  /** An index that is no number from 0 on is ignored. */
  lemma BadIndexIgnored(data: Json, key: string, text: string)
    requires '.' !in key && '[' !in key && '.' !in text
    requires match Atoi(text) case Some(value) => value < 0 case None => true
    ensures Navigate(data, key + "[" + text + "]") == Navigate(data, key)
  {
    assert IndexMove(text) == [];
    SameMoves(key, text);
  }

  lemma SameMoves(key: string, text: string)
    requires '.' !in key && '[' !in key && '.' !in text && IndexMove(text) == []
    ensures PathMoves(key + "[" + text + "]") == PathMoves(key)
  {
    BracketMoves(key, text);
    PlainMoves(key + "[" + text + "]");
    PlainMoves(key);
  }

  lemma BracketMoves(key: string, text: string)
    requires '[' !in key
    ensures PartMoves(key + "[" + text + "]") == KeyMove(key) + IndexMove(text) && PartMoves(key) == KeyMove(key)
  {
    var path := key + "[" + text + "]";
    assert path == key + "[" + (text + "]");
    IndexOfBehind(key, text + "]");
    assert path[..|key|] == key && path[|key| + 1..|path| - 1] == text && path[|path| - 1] == ']';
  }

  lemma PlainMoves(text: string)
    requires '.' !in text
    ensures PathMoves(text) == PartMoves(text)
  {
    NoDotNoPrefix(text);
    SplitWithoutDot(text);
    OnePartMoves(text);
  }

  /** Paths of one part. */
  lemma OnePart(data: Json, path: string)
    ensures path == "" || path == "$." ==> Navigate(data, path) == data
    ensures data.Object? && path != "" && '.' !in path && '[' !in path ==>
      Navigate(data, path) == if path in data.members then data.members[path] else Null
    ensures data.Array? ==> forall i: nat :: i <= 0x7fff_ffff_ffff_ffff && path == "[" + Decimal(i) + "]" ==>
      Navigate(data, path) == if i < |data.items| then data.items[i] else Null
  {
    EmptyPath();
    if data.Object? && path != "" && '.' !in path && '[' !in path {
      OneKey(data, path);
    }
    if data.Array? {
      forall i: nat | i <= 0x7fff_ffff_ffff_ffff && path == "[" + Decimal(i) + "]"
        ensures Navigate(data, path) == if i < |data.items| then data.items[i] else Null
      {
        OneIndex(data, i);
      }
    }
  }

  lemma OneKey(data: Json, key: string)
    requires data.Object? && key != "" && '.' !in key && '[' !in key
    ensures Navigate(data, key) == if key in data.members then data.members[key] else Null
  {
    var part := Part(key, None);
    assert Writes(key, [part]);
    if key in data.members {
      assert IsMember(data, key, data.members[key]) && IsItem(data.members[key], None, data.members[key]);
      FindsBranch([data, data.members[key]], [part], key);
    } else {
      FindsNothing([data], [part], 0, key);
    }
  }

  lemma OneIndex(data: Json, i: nat)
    requires data.Array? && i <= 0x7fff_ffff_ffff_ffff
    ensures Navigate(data, "[" + Decimal(i) + "]") == if i < |data.items| then data.items[i] else Null
  {
    var part := Part("", Some(i));
    var path := "[" + Decimal(i) + "]";
    assert PartText(part) == path by {
      assert "" + "[" == "[";
    }
    assert Writes(path, [part]);
    if i < |data.items| {
      assert IsMember(data, "", data) && IsItem(data, Some(i), data.items[i]);
      FindsBranch([data, data.items[i]], [part], path);
    } else {
      FindsNothing([data], [part], 0, path);
    }
  }

  // ---------------------------------------------------------------- the code

  /** Takes a part of the path apart; no index is -1. */
  method ParsePart(part: string) returns (key: string, index: int)
    ensures index >= -1 && PartMoves(part) == KeyMove(key) + if index > -1 then [Index(index)] else []
  {
    index := -1;
    var i := IndexOf(part, '[');
    if i > -1 && part[|part| - 1] == ']' {
      key := part[..i];
      var value := Atoi(part[i + 1..|part| - 1]);
      if value.Some? && value.value > -1 {
        index := value.value;
      }
    } else {
      key := part;
    }
  }

  /** Goes down by the key, then by the index. */
  method Descend(data: Json, key: string, index: int) returns (r: Json)
    ensures r == Walk(Walk(data, KeyMove(key)), if index > -1 then [Index(index)] else [])
  {
    r := data;
    if key != "" {
      r := if r.Object? && key in r.members then r.members[key] else Null;
    }
    if index > -1 {
      r := if r.Array? && index < |r.items| then r.items[index] else Null;
    }
  }

  /** The loop over the parts of the path. */
  method NavigateJson(data: Json, path: string) returns (r: Json)
    ensures r == Navigate(data, path)
    ensures path == "" || path == "$." ==> r == data
    ensures data.Object? && path != "" && '.' !in path && '[' !in path ==>
      r == if path in data.members then data.members[path] else Null
    ensures data.Array? ==> forall i: nat :: i <= 0x7fff_ffff_ffff_ffff && path == "[" + Decimal(i) + "]" ==>
      r == if i < |data.items| then data.items[i] else Null
  {
    OnePart(data, path);
    var trimmed := TrimPrefix(path);
    if trimmed == "" {
      EmptyPath();
      return data;
    }
    var parts := Split(trimmed);
    r := data;
    for n := 0 to |parts|
      invariant Walk(data, Moves(PartMoves, parts)) == Walk(r, Moves(PartMoves, parts[n..]))
    {
      if r == Null {
        WalkFromNull(Moves(PartMoves, parts[n..]));
        return;
      }
      var key, index := ParsePart(parts[n]);
      assert parts[n..][1..] == parts[n + 1..];
      WalkPart(r, KeyMove(key), if index > -1 then [Index(index)] else [], Moves(PartMoves, parts[n + 1..]));
      r := Descend(r, key, index);
    }
    assert parts[|parts|..] == [];
  }

  lemma EmptyPath()
    ensures PartsMoves("") == []
  {
    assert [""][1..] == [] && PartMoves("") == [];
  }

  lemma WalkPart(data: Json, keyMoves: seq<Move>, indexMoves: seq<Move>, rest: seq<Move>)
    ensures Walk(data, keyMoves + indexMoves + rest) == Walk(Walk(Walk(data, keyMoves), indexMoves), rest)
  {
    WalkInTwo(data, keyMoves + indexMoves, rest);
    WalkInTwo(data, keyMoves, indexMoves);
  }
}
