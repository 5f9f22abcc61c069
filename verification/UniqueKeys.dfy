/** The duplicate-key check of mirror filters: a stack machine over the decoder's token stream, against
    the recursive meaning of "no object repeats a key". */
module UniqueKeys {

  datatype Json =
    | JObject(members: seq<Member>)
    | JArray(items: seq<Json>)
    | JString(s: string)
    | JScalar // number, true, false or null

  datatype Member = Member(key: string, value: Json)

  datatype Token = OpenObject | OpenArray | Close | Str(s: string) | Scalar

  /** How the decoder's stream ends: at the end of the input or in a syntax error. */
  datatype End = EOF | SyntaxError

  // ---- Documents and their tokens ----

  function Tokens(j: Json): seq<Token> {
    match j
    case JObject(members) => [OpenObject] + MemberTokens(members) + [Close]
    case JArray(items) => [OpenArray] + ItemTokens(items) + [Close]
    case JString(s) => [Str(s)]
    case JScalar => [Scalar]
  }

  function MemberTokens(members: seq<Member>): seq<Token> {
    if members == [] then []
    else [Str(members[0].key)] + Tokens(members[0].value) + MemberTokens(members[1..])
  }

  function ItemTokens(items: seq<Json>): seq<Token> {
    if items == [] then [] else Tokens(items[0]) + ItemTokens(items[1..])
  }

  lemma FirstToken(j: Json)
    ensures Tokens(j) != [] && !Tokens(j)[0].Close?
  {
  }

  lemma ItemsStart(items: seq<Json>, x: seq<Token>)
    ensures (ItemTokens(items) + ([Close] + x))[0].Close? <==> items == []
  {
    if items != [] { FirstToken(items[0]); }
  }

  lemma MembersStart(members: seq<Member>, x: seq<Token>)
    ensures (MemberTokens(members) + ([Close] + x))[0].Close? <==> members == []
  {
  }

  /** A document can be read back from its tokens: no two documents have the same, whatever follows. */
  lemma {:induction false} TokensDetermine(a: Json, b: Json, x: seq<Token>, y: seq<Token>)
    requires Tokens(a) + x == Tokens(b) + y
    ensures a == b && x == y
    decreases a, 0
  {
    var s := Tokens(a) + x;
    FirstToken(a);
    FirstToken(b);
    assert Tokens(a)[0] == s[0] == Tokens(b)[0];
    match a
    case JObject(members) =>
      assert s[1..] == MemberTokens(members) + ([Close] + x) == MemberTokens(b.members) + ([Close] + y);
      MembersDetermine(members, b.members, x, y);
    case JArray(items) =>
      assert s[1..] == ItemTokens(items) + ([Close] + x) == ItemTokens(b.items) + ([Close] + y);
      ItemsDetermine(items, b.items, x, y);
    case JString(_) =>
      assert x == s[1..] == y;
    case JScalar =>
      assert x == s[1..] == y;
  }

  lemma {:induction false} ItemsDetermine(a: seq<Json>, b: seq<Json>, x: seq<Token>, y: seq<Token>)
    requires ItemTokens(a) + ([Close] + x) == ItemTokens(b) + ([Close] + y)
    ensures a == b && x == y
    decreases a, 1
  {
    var s := ItemTokens(a) + ([Close] + x);
    ItemsStart(a, x);
    ItemsStart(b, y);
    if a == [] {
      assert x == s[1..] == y;
    } else {
      var u, v := ItemTokens(a[1..]) + ([Close] + x), ItemTokens(b[1..]) + ([Close] + y);
      assert s == Tokens(a[0]) + u == Tokens(b[0]) + v;
      TokensDetermine(a[0], b[0], u, v);
      ItemsDetermine(a[1..], b[1..], x, y);
      assert a == [a[0]] + a[1..] && b == [b[0]] + b[1..];
    }
  }

  lemma {:induction false} MembersDetermine(a: seq<Member>, b: seq<Member>, x: seq<Token>, y: seq<Token>)
    requires MemberTokens(a) + ([Close] + x) == MemberTokens(b) + ([Close] + y)
    ensures a == b && x == y
    decreases a, 1
  {
    var s := MemberTokens(a) + ([Close] + x);
    MembersStart(a, x);
    MembersStart(b, y);
    if a == [] {
      assert x == s[1..] == y;
    } else {
      var u, v := MemberTokens(a[1..]) + ([Close] + x), MemberTokens(b[1..]) + ([Close] + y);
      assert s == [Str(a[0].key)] + (Tokens(a[0].value) + u) == [Str(b[0].key)] + (Tokens(b[0].value) + v);
      assert Str(a[0].key) == s[0] == Str(b[0].key);
      assert s[1..] == Tokens(a[0].value) + u == Tokens(b[0].value) + v;
      TokensDetermine(a[0].value, b[0].value, u, v);
      MembersDetermine(a[1..], b[1..], x, y);
      assert a == [a[0]] + a[1..] && b == [b[0]] + b[1..];
    }
  }

  /** Every object at every depth has pairwise distinct keys. */
  predicate Unique(j: Json) {
    match j
    case JObject(members) =>
      && (forall i, k :: 0 <= i < k < |members| ==> members[i].key != members[k].key)
      && (forall m :: m in members ==> Unique(m.value))
    case JArray(items) => forall item :: item in items ==> Unique(item)
    case JString(_) => true
    case JScalar => true
  }

  // ---- The stack machine ----

  datatype Frame = Frame(seen: set<string>, isObject: bool, expectKey: bool)

  type Stack = seq<Frame> // top last

  /** The frame under a finished value goes back to expecting a key. */
  function ValueDone(stack: Stack): Stack {
    var n := |stack|;
    if n > 0 && stack[n - 1].isObject then stack[n - 1 := stack[n - 1].(expectKey := true)] else stack
  }

  datatype Outcome = Go(stack: Stack) | Reject

  function Step(stack: Stack, t: Token): Outcome {
    var n := |stack|;
    match t
    case OpenObject => Go(stack + [Frame({}, true, true)])
    case OpenArray => Go(stack + [Frame({}, false, false)])
    case Close => if n == 0 then Reject else Go(ValueDone(stack[..n - 1]))
    case Str(s) =>
      if n > 0 && stack[n - 1].isObject && stack[n - 1].expectKey then
        if s in stack[n - 1].seen then Reject
        else Go(stack[n - 1 := stack[n - 1].(seen := stack[n - 1].seen + {s}, expectKey := false)])
      else Go(ValueDone(stack))
    case Scalar => Go(ValueDone(stack))
  }

  function Scan(stack: Stack, tokens: seq<Token>, end: End): bool
    decreases |tokens|
  {
    if tokens == [] then end.EOF? && stack == []
    else match Step(stack, tokens[0])
         case Reject => false
         case Go(next) => Scan(next, tokens[1..], end)
  }

  /** The loop over decoder tokens. */
  method FilterHasUniqueKeys(tokens: seq<Token>, end: End) returns (ok: bool)
    ensures ok == Scan([], tokens, end)
  {
    var stack: Stack := [];
    var i := 0;
    while i < |tokens|
      invariant i <= |tokens|
      invariant Scan([], tokens, end) == Scan(stack, tokens[i..], end)
    {
      var t := tokens[i];
      assert tokens[i..] == [t] + tokens[i + 1..];
      ScanFirst(stack, t, tokens[i + 1..], end);
      ghost var before := stack;
      var n := |stack|;
      match t {
        case OpenObject =>
          stack := stack + [Frame({}, true, true)];
        case OpenArray =>
          stack := stack + [Frame({}, false, false)];
        case Close =>
          if n == 0 { return false; }
          stack := stack[..n - 1];
          n := |stack|;
          if n > 0 && stack[n - 1].isObject {
            stack := stack[n - 1 := stack[n - 1].(expectKey := true)];
          }
        case Str(s) =>
          if n > 0 && stack[n - 1].isObject {
            var top := stack[n - 1];
            if top.expectKey {
              if s in top.seen { return false; }
              stack := stack[n - 1 := top.(seen := top.seen + {s}, expectKey := false)];
            } else {
              stack := stack[n - 1 := top.(expectKey := true)];
            }
          }
        case Scalar =>
          if n > 0 && stack[n - 1].isObject {
            stack := stack[n - 1 := stack[n - 1].(expectKey := true)];
          }
      }
      assert Step(before, t) == Go(stack);
      i := i + 1;
    }
    ok := end.EOF? && |stack| == 0;
  }

  // ---- The machine computes Unique ----

  /** The machine waits for a value: at top level, in an array, or after a key. */
  predicate AwaitsValue(stack: Stack) {
    stack == [] || !stack[|stack| - 1].isObject || !stack[|stack| - 1].expectKey
  }

  lemma ScanFirst(stack: Stack, t: Token, tail: seq<Token>, end: End)
    ensures Scan(stack, [t] + tail, end) ==
            match Step(stack, t) case Reject => false case Go(next) => Scan(next, tail, end)
  {
    assert ([t] + tail)[1..] == tail;
  }

  lemma Bracketed(open: Token, inner: seq<Token>, rest: seq<Token>)
    ensures [open] + inner + [Close] + rest == [open] + (inner + ([Close] + rest))
  {
  }

  /** A value's tokens take the machine past the value if it is unique, and make it reject if not. */
  lemma {:induction false} ScanValue(stack: Stack, j: Json, rest: seq<Token>, end: End)
    requires AwaitsValue(stack)
    ensures Scan(stack, Tokens(j) + rest, end) <==> Unique(j) && Scan(ValueDone(stack), rest, end)
    decreases j, 0
  {
    match j
    case JObject(members) =>
      Bracketed(OpenObject, MemberTokens(members), rest);
      ScanFirst(stack, OpenObject, MemberTokens(members) + ([Close] + rest), end);
      ScanMembers(stack, {}, members, rest, end);
    case JArray(items) =>
      Bracketed(OpenArray, ItemTokens(items), rest);
      ScanFirst(stack, OpenArray, ItemTokens(items) + ([Close] + rest), end);
      ScanItems(stack, items, rest, end);
    case JString(s) =>
      ScanFirst(stack, Str(s), rest, end);
    case JScalar =>
      ScanFirst(stack, Scalar, rest, end);
  }

  lemma ScanClose(stack: Stack, top: Frame, rest: seq<Token>, end: End)
    ensures Scan(stack + [top], [Close] + rest, end) == Scan(ValueDone(stack), rest, end)
  {
    ScanFirst(stack + [top], Close, rest, end);
    assert (stack + [top])[..|stack|] == stack;
  }

  lemma UniqueItemsSplit(items: seq<Json>)
    requires items != []
    ensures (forall item :: item in items ==> Unique(item)) <==>
            Unique(items[0]) && forall item :: item in items[1..] ==> Unique(item)
  {
    assert items == [items[0]] + items[1..];
  }

  lemma {:induction false} ScanItems(stack: Stack, items: seq<Json>, rest: seq<Token>, end: End)
    ensures Scan(stack + [Frame({}, false, false)], ItemTokens(items) + ([Close] + rest), end) <==>
            (forall item :: item in items ==> Unique(item)) && Scan(ValueDone(stack), rest, end)
    decreases items, 1
  {
    var open := stack + [Frame({}, false, false)];
    if items == [] {
      assert ItemTokens(items) + ([Close] + rest) == [Close] + rest;
      ScanClose(stack, Frame({}, false, false), rest, end);
    } else {
      var tail := ItemTokens(items[1..]) + ([Close] + rest);
      assert ItemTokens(items) + ([Close] + rest) == Tokens(items[0]) + tail;
      ScanValue(open, items[0], tail, end);
      assert ValueDone(open) == open;
      ScanItems(stack, items[1..], rest, end);
      UniqueItemsSplit(items);
    }
  }

  predicate FreshKeys(members: seq<Member>, seen: set<string>) {
    && (forall i, k :: 0 <= i < k < |members| ==> members[i].key != members[k].key)
    && (forall m :: m in members ==> m.key !in seen)
  }

  /** A key in an open object: seen before, or the object now waits for its value. */
  lemma ScanKey(stack: Stack, seen: set<string>, key: string, tail: seq<Token>, end: End)
    ensures Scan(stack + [Frame(seen, true, true)], [Str(key)] + tail, end) ==
            (key !in seen && Scan(stack + [Frame(seen + {key}, true, false)], tail, end))
  {
    var open := stack + [Frame(seen, true, true)];
    ScanFirst(open, Str(key), tail, end);
    assert open[|stack| := Frame(seen + {key}, true, false)] == stack + [Frame(seen + {key}, true, false)];
  }

  lemma UniqueSplit(members: seq<Member>)
    requires members != []
    ensures (forall m :: m in members ==> Unique(m.value)) <==>
            Unique(members[0].value) && forall m :: m in members[1..] ==> Unique(m.value)
  {
    assert members == [members[0]] + members[1..];
  }

  lemma {:induction false} ScanMembers(stack: Stack, seen: set<string>, members: seq<Member>, rest: seq<Token>,
                                       end: End)
    ensures Scan(stack + [Frame(seen, true, true)], MemberTokens(members) + ([Close] + rest), end) <==>
            FreshKeys(members, seen) && (forall m :: m in members ==> Unique(m.value)) &&
            Scan(ValueDone(stack), rest, end)
    decreases members, 1
  {
    if members == [] {
      assert MemberTokens(members) + ([Close] + rest) == [Close] + rest;
      ScanClose(stack, Frame(seen, true, true), rest, end);
    } else {
      var m := members[0];
      var tail := MemberTokens(members[1..]) + ([Close] + rest);
      assert MemberTokens(members) + ([Close] + rest) == [Str(m.key)] + (Tokens(m.value) + tail);
      ScanKey(stack, seen, m.key, Tokens(m.value) + tail, end);
      FreshKeysSplit(members, seen);
      var waiting := stack + [Frame(seen + {m.key}, true, false)];
      ScanValue(waiting, m.value, tail, end);
      assert ValueDone(waiting) == stack + [Frame(seen + {m.key}, true, true)];
      ScanMembers(stack, seen + {m.key}, members[1..], rest, end);
      UniqueSplit(members);
    }
  }

  lemma FreshKeysSplit(members: seq<Member>, seen: set<string>)
    requires members != []
    ensures FreshKeys(members, seen) <==>
            members[0].key !in seen && FreshKeys(members[1..], seen + {members[0].key})
  {
    var tail := members[1..];
    assert members == [members[0]] + tail;
    if FreshKeys(tail, seen + {members[0].key}) && members[0].key !in seen {
      forall i, k | 0 <= i < k < |members| ensures members[i].key != members[k].key {
        assert members[k] == tail[k - 1] && tail[k - 1] in tail;
        if i > 0 { assert members[i] == tail[i - 1]; }
      }
    }
    if FreshKeys(members, seen) {
      forall m | m in tail ensures m.key !in seen + {members[0].key} {
        var k :| 0 <= k < |tail| && tail[k] == m;
        assert members[k + 1] == m;
      }
    }
  }

  /** The tokens of the documents of one input, one after the other. */
  function Stream(docs: seq<Json>): seq<Token> {
    ItemTokens(docs)
  }

  /** On the token stream of any documents of any nesting, the check succeeds exactly when the input ends
      cleanly and no object in any of them repeats a key. */
  lemma {:induction false} UniqueKeysExactly(docs: seq<Json>, end: End)
    ensures Scan([], Stream(docs), end) <==> end.EOF? && forall j :: j in docs ==> Unique(j)
  {
    if docs != [] {
      ScanValue([], docs[0], Stream(docs[1..]), end);
      UniqueKeysExactly(docs[1..], end);
      assert docs == [docs[0]] + docs[1..];
    }
  }

  /** An input cut off inside a value is never accepted, whatever its keys. */
  lemma {:induction false} BrokenInputRejected(stack: Stack, tokens: seq<Token>)
    ensures !Scan(stack, tokens, SyntaxError)
    decreases |tokens|
  {
    if tokens != [] {
      match Step(stack, tokens[0])
      case Reject =>
      case Go(next) => BrokenInputRejected(next, tokens[1..]);
    }
  }

  // ---- Inputs that end inside a document ----

  function Rise(t: Token): int {
    match t
    case OpenObject => 1
    case OpenArray => 1
    case Close => -1
    case Str(_) => 0
    case Scalar => 0
  }

  /** How many more values the tokens open than they close. */
  function Depth(tokens: seq<Token>): int {
    if tokens == [] then 0 else Rise(tokens[0]) + Depth(tokens[1..])
  }

  lemma {:induction false} DepthSum(a: seq<Token>, b: seq<Token>)
    ensures Depth(a + b) == Depth(a) + Depth(b)
  {
    if a == [] {
      assert a + b == b;
    } else {
      DepthSum(a[1..], b);
      assert (a + b)[1..] == a[1..] + b;
    }
  }

  /** The machine's stack is as deep as the tokens say: acceptance needs them to balance. */
  lemma {:induction false} ScanBalances(stack: Stack, tokens: seq<Token>, end: End)
    requires Scan(stack, tokens, end)
    ensures |stack| + Depth(tokens) == 0
    decreases |tokens|
  {
    if tokens != [] {
      match Step(stack, tokens[0])
      case Go(next) => ScanBalances(next, tokens[1..], end);
    }
  }

  lemma BracketDepth(open: Token, inner: seq<Token>, n: nat)
    requires open.OpenObject? || open.OpenArray?
    ensures Depth([open] + inner + [Close]) == Depth(inner)
    ensures 0 < n <= |inner| + 1 ==> Depth(([open] + inner + [Close])[..n]) == 1 + Depth(inner[..n - 1])
  {
    assert [open] + inner + [Close] == [open] + (inner + [Close]);
    DepthSum([open], inner + [Close]);
    DepthSum(inner, [Close]);
    if 0 < n <= |inner| + 1 {
      assert ([open] + inner + [Close])[..n] == [open] + inner[..n - 1];
      DepthSum([open], inner[..n - 1]);
    }
  }

  /** A document's tokens balance, and no proper non-empty prefix of them does. */
  lemma {:induction false} DocumentDepth(j: Json, n: nat)
    requires n <= |Tokens(j)|
    ensures Depth(Tokens(j)) == 0
    ensures Depth(Tokens(j)[..n]) >= if 0 < n < |Tokens(j)| then 1 else 0
    decreases j, 0
  {
    assert Tokens(j)[..|Tokens(j)|] == Tokens(j);
    match j
    case JObject(members) =>
      BracketDepth(OpenObject, MemberTokens(members), n);
      MembersDepth(members, if 0 < n <= |MemberTokens(members)| + 1 then n - 1 else 0);
    case JArray(items) =>
      BracketDepth(OpenArray, ItemTokens(items), n);
      ItemsDepth(items, if 0 < n <= |ItemTokens(items)| + 1 then n - 1 else 0);
    case JString(_) =>
    case JScalar =>
  }

  /** Cutting the tokens of a value and what follows it. */
  lemma CutAfter(first: seq<Token>, rest: seq<Token>, n: nat)
    requires n <= |first + rest|
    ensures Depth((first + rest)[..n]) ==
            if n <= |first| then Depth(first[..n]) else Depth(first) + Depth(rest[..n - |first|])
  {
    if n <= |first| {
      assert (first + rest)[..n] == first[..n];
    } else {
      assert (first + rest)[..n] == first + rest[..n - |first|];
      DepthSum(first, rest[..n - |first|]);
    }
  }

  lemma {:induction false} ItemsDepth(items: seq<Json>, n: nat)
    requires n <= |ItemTokens(items)|
    ensures Depth(ItemTokens(items)) == 0 && Depth(ItemTokens(items)[..n]) >= 0
    decreases items, 1
  {
    if items != [] {
      var first, rest := Tokens(items[0]), ItemTokens(items[1..]);
      CutAfter(first, rest, n);
      DepthSum(first, rest);
      DocumentDepth(items[0], if n <= |first| then n else 0);
      ItemsDepth(items[1..], if n <= |first| then 0 else n - |first|);
    }
  }

  lemma {:induction false} MembersDepth(members: seq<Member>, n: nat)
    requires n <= |MemberTokens(members)|
    ensures Depth(MemberTokens(members)) == 0 && Depth(MemberTokens(members)[..n]) >= 0
    decreases members, 1
  {
    if members != [] {
      var key, first, rest := [Str(members[0].key)], Tokens(members[0].value), MemberTokens(members[1..]);
      assert MemberTokens(members) == key + (first + rest);
      CutAfter(key, first + rest, n);
      DepthSum(key, first + rest);
      DepthSum(first, rest);
      if n > 1 {
        CutAfter(first, rest, n - 1);
        DocumentDepth(members[0].value, if n - 1 <= |first| then n - 1 else 0);
        MembersDepth(members[1..], if n - 1 <= |first| then 0 else n - 1 - |first|);
      } else {
        DocumentDepth(members[0].value, 0);
        MembersDepth(members[1..], 0);
        assert key[..n] == [] || key[..n] == key;
      }
    }
  }

  /** An input that ends, even cleanly, inside a document is rejected, whatever documents came before. */
  lemma CutOffRejected(docs: seq<Json>, j: Json, n: nat, end: End)
    requires 0 < n < |Tokens(j)|
    ensures !Scan([], Stream(docs) + Tokens(j)[..n], end)
  {
    ItemsDepth(docs, 0);
    DocumentDepth(j, n);
    DepthSum(Stream(docs), Tokens(j)[..n]);
    if Scan([], Stream(docs) + Tokens(j)[..n], end) {
      ScanBalances([], Stream(docs) + Tokens(j)[..n], end);
    }
  }
}
