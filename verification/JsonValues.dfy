/**
 The indenter (go/sigil/sigils.go) on JSON values: the text of a value without white space becomes
 the text of the same value laid out with one element on each line.
 */
module JsonValues {
  import opened JsonIndent

  /** A value by its structure; scalars are tokens, strings the bytes between their quotes. */
  datatype Json =
    | Token(text: string)
    | Text(body: string)
    | List(items: Items)
    | Object(members: Members)

  datatype Items = NoItems | Item(value: Json, rest: Items)

  datatype Members = NoMembers | Member(name: string, value: Json, rest: Members)

  /** Quotes and backslashes of a string only come after a backslash. */
  predicate Quotable(body: string)
    decreases |body|
  {
    if body == "" then true
    else if body[0] == '\\' then |body| >= 2 && Quotable(body[2..])
    else body[0] != '"' && Quotable(body[1..])
  }

  /** A scalar is written with other bytes than brackets, commas, colons and quotes. */
  predicate Scalar(text: string) {
    text != "" && forall i | 0 <= i < |text| :: text[i] !in {'{', '}', '[', ']', ',', ':', '"'}
  }

  predicate Good(j: Json) {
    match j
    case Token(text) => Scalar(text)
    case Text(body) => Quotable(body)
    case List(items) => GoodItems(items)
    case Object(members) => GoodMembers(members)
  }

  predicate GoodItems(items: Items) {
    items.Item? ==> Good(items.value) && GoodItems(items.rest)
  }

  predicate GoodMembers(members: Members) {
    members.Member? ==> Quotable(members.name) && Good(members.value) && GoodMembers(members.rest)
  }

  // Without white space

  function Compact(j: Json): string {
    match j
    case Token(text) => text
    case Text(body) => "\"" + body + "\""
    case List(items) => "[" + CompactItems(items) + "]"
    case Object(members) => "{" + CompactMembers(members) + "}"
  }

  function CompactItems(items: Items): string {
    match items
    case NoItems => ""
    case Item(value, rest) => Compact(value) + if rest.NoItems? then "" else "," + CompactItems(rest)
  }

  function CompactMembers(members: Members): string {
    match members
    case NoMembers => ""
    case Member(name, value, rest) =>
      "\"" + name + "\"" + ":" + Compact(value) + if rest.NoMembers? then "" else "," + CompactMembers(rest)
  }

  // Laid out

  /** A new line that starts at this level. */
  function Line(level: nat): string {
    ['\n'] + seq(2 * level, _ => ' ')
  }

  function Pretty(j: Json, level: nat): string {
    match j
    case Token(text) => text
    case Text(body) => "\"" + body + "\""
    case List(items) =>
      if items.NoItems? then "[]" else "[" + Line(level + 1) + PrettyItems(items, level + 1) + Line(level) + "]"
    case Object(members) =>
      if members.NoMembers? then "{}" else "{" + Line(level + 1) + PrettyMembers(members, level + 1) + Line(level) + "}"
  }

  function PrettyItems(items: Items, level: nat): string {
    match items
    case NoItems => ""
    case Item(value, rest) =>
      Pretty(value, level) + if rest.NoItems? then "" else "," + Line(level) + PrettyItems(rest, level)
  }

  function PrettyMembers(members: Members, level: nat): string {
    match members
    case NoMembers => ""
    case Member(name, value, rest) =>
      "\"" + name + "\"" + ":" + " " + Pretty(value, level) +
      if rest.NoMembers? then "" else "," + Line(level) + PrettyMembers(rest, level)
  }

  // One piece of the text after the other

  /** `piece` stands in the text at `i`. */
  predicate At(text: string, i: nat, piece: string) {
    i + |piece| <= |text| && text[i..i + |piece|] == piece
  }

  lemma AtParts(text: string, i: nat, a: string, b: string)
    requires At(text, i, a + b)
    ensures At(text, i, a) && At(text, i + |a|, b)
  {
    var piece := text[i..i + |a + b|];
    assert piece[..|a|] == a && piece[|a|..] == b;
    assert text[i..i + |a|] == piece[..|a|] && text[i + |a|..i + |a| + |b|] == piece[|a|..];
  }

  lemma AtFirst(text: string, i: nat, piece: string)
    requires At(text, i, piece) && piece != ""
    ensures i < |text| && text[i] == piece[0] && At(text, i + 1, piece[1..])
    ensures text[i + |piece| - 1] == piece[|piece| - 1]
  {
    assert piece == [piece[0]] + piece[1..];
    AtParts(text, i, [piece[0]], piece[1..]);
    assert text[i..i + |piece|][0] == text[i];
    assert text[i..i + |piece|][|piece| - 1] == text[i + |piece| - 1];
  }

  /** The indenter goes from `i` at one level to `k` at another and writes `out` on the way. */
  ghost predicate Goes(text: string, i: nat, level: int, q: Lex, out: string, k: nat, after: int, r: Lex) {
    i <= k <= |text| && IndentFrom(text, i, level, q) == out + IndentFrom(text, k, after, r)
  }

  lemma GoesOn(text: string, i: nat, level: int, q: Lex, a: string, k: nat, after: int, r: Lex, b: string, n: nat, last: int,
      s: Lex)
    requires Goes(text, i, level, q, a, k, after, r) && Goes(text, k, after, r, b, n, last, s)
    ensures Goes(text, i, level, q, a + b, n, last, s)
  {
    hide IndentFrom;
    var rest := IndentFrom(text, n, last, s);
    assert a + (b + rest) == a + b + rest;
  }

  lemma GoesNowhere(text: string, i: nat, level: int, q: Lex)
    requires i <= |text|
    ensures Goes(text, i, level, q, "", i, level, q)
  {
    hide IndentFrom;
    var rest := IndentFrom(text, i, level, q);
    assert "" + rest == rest;
  }

  /** One byte, by what it is. */
  lemma GoesOne(text: string, i: nat, level: int, q: Lex)
    requires i < |text|
    ensures q != Outside ==> Goes(text, i, level, q, [text[i]], i + 1, level, Next(q, text[i]))
    ensures q == Outside ==>
              Goes(text, i, level, q, Written(text, i, level, q), i + 1, LevelAfter(text, i, level), Next(q, text[i]))
  {
    hide Written, LevelAfter, Next, IndentFrom;
    IndentFromStep(text, i, level, q);
  }

  /** Other bytes are copied. */
  lemma GoesPlain(text: string, i: nat, level: int)
    requires i < |text| && text[i] !in {'{', '}', '[', ']', ',', ':'}
    ensures Goes(text, i, level, Outside, [text[i]], i + 1, level, if text[i] == '"' then InString else Outside)
  {
    GoesOne(text, i, level, Outside);
    hide IndentFrom;
  }

  lemma GoesComma(text: string, i: nat, level: nat)
    requires i < |text| && text[i] == ','
    ensures Goes(text, i, level, Outside, "," + Line(level), i + 1, level, Outside)
  {
    GoesOne(text, i, level, Outside);
    hide IndentFrom;
    SpacesAreBlanks(level);
    assert ",\n" + Spaces(level) == "," + Line(level);
  }

  lemma GoesColon(text: string, i: nat, level: nat)
    requires i < |text| && text[i] == ':'
    ensures Goes(text, i, level, Outside, ":" + " ", i + 1, level, Outside)
  {
    GoesOne(text, i, level, Outside);
    hide IndentFrom;
    assert ": " == ":" + " ";
  }

  lemma GoesIn(text: string, i: nat, level: nat)
    requires i + 1 < |text| && text[i] in {'[', '{'} && text[i + 1] !in {']', '}'}
    ensures Goes(text, i, level, Outside, [text[i]] + Line(level + 1), i + 1, level + 1, Outside)
  {
    GoesOne(text, i, level, Outside);
    hide IndentFrom;
    SpacesAreBlanks(level + 1);
    assert [text[i]] + "\n" + Spaces(level + 1) == [text[i]] + Line(level + 1);
  }

  lemma GoesOut(text: string, i: nat, level: nat)
    requires 0 < i < |text| && text[i] in {']', '}'} && text[i - 1] !in {'[', '{'}
    ensures Goes(text, i, level + 1, Outside, Line(level) + [text[i]], i + 1, level, Outside)
  {
    GoesOne(text, i, level + 1, Outside);
    hide IndentFrom;
    SpacesAreBlanks(level);
    assert "\n" + Spaces(level) + [text[i]] == Line(level) + [text[i]];
  }

  lemma GoesEmpty(text: string, i: nat, level: nat)
    requires i + 1 < |text| && text[i] in {'[', '{'} && text[i + 1] in {']', '}'}
    ensures Goes(text, i, level, Outside, [text[i], text[i + 1]], i + 2, level, Outside)
  {
    GoesOne(text, i, level, Outside);
    GoesOne(text, i + 1, level, Outside);
    hide IndentFrom;
    GoesOn(text, i, level, Outside, [text[i]], i + 1, level, Outside, [text[i + 1]], i + 2, level, Outside);
    assert [text[i]] + [text[i + 1]] == [text[i], text[i + 1]];
  }

  lemma {:induction false} GoesScalar(text: string, i: nat, level: nat, scalar: string)
    requires At(text, i, scalar) && (scalar != "" ==> Scalar(scalar))
    ensures Goes(text, i, level, Outside, scalar, i + |scalar|, level, Outside)
    decreases |scalar|
  {
    hide Goes, At;
    if scalar == "" {
      GoesNowhere(text, i, level, Outside) by { AtEnds(text, i, scalar); }
    } else {
      AtFirst(text, i, scalar);
      GoesPlain(text, i, level);
      GoesScalar(text, i + 1, level, scalar[1..]);
      GoesOn(text, i, level, Outside, [scalar[0]], i + 1, level, Outside, scalar[1..], i + |scalar|, level, Outside);
      assert scalar == [scalar[0]] + scalar[1..];
    }
  }

  lemma AtEnds(text: string, i: nat, piece: string)
    requires At(text, i, piece)
    ensures i + |piece| <= |text|
  {
  }

  /** Inside a string everything is copied, up to the quote that ends it. */
  lemma {:induction false} GoesBody(text: string, i: nat, level: nat, body: string)
    requires At(text, i, body + "\"") && Quotable(body)
    ensures Goes(text, i, level, InString, body + "\"", i + |body| + 1, level, Outside)
    decreases |body|
  {
    hide Goes, At;
    var whole := body + "\"";
    AtFirst(text, i, whole);
    GoesOne(text, i, level, InString);
    if body == "" {
      assert whole == "\"";
    } else if body[0] == '\\' {
      assert whole[1..] == body[1..] + "\"" && whole[1..][1..] == body[2..] + "\"";
      AtFirst(text, i + 1, whole[1..]);
      GoesOne(text, i + 1, level, Escaped);
      GoesBody(text, i + 2, level, body[2..]);
      GoesOn(text, i + 1, level, Escaped, [body[1]], i + 2, level, InString, body[2..] + "\"", i + |body| + 1, level, Outside);
      GoesOn(text, i, level, InString, [body[0]], i + 1, level, Escaped, [body[1]] + (body[2..] + "\""),
        i + |body| + 1, level, Outside);
      assert whole == [body[0]] + ([body[1]] + (body[2..] + "\""));
    } else {
      assert whole[1..] == body[1..] + "\"";
      GoesBody(text, i + 1, level, body[1..]);
      GoesOn(text, i, level, InString, [body[0]], i + 1, level, InString, body[1..] + "\"", i + |body| + 1, level, Outside);
      assert whole == [body[0]] + (body[1..] + "\"");
    }
  }

  lemma GoesString(text: string, i: nat, level: nat, body: string)
    requires At(text, i, "\"" + body + "\"") && Quotable(body)
    ensures Goes(text, i, level, Outside, "\"" + body + "\"", i + |body| + 2, level, Outside)
  {
    hide Goes, At;
    var whole := "\"" + body + "\"";
    assert whole[1..] == body + "\"" && whole == "\"" + (body + "\"");
    AtFirst(text, i, whole);
    GoesPlain(text, i, level);
    GoesBody(text, i + 1, level, body);
    GoesOn(text, i, level, Outside, "\"", i + 1, level, InString, body + "\"", i + |body| + 2, level, Outside);
  }

  // Values

  /** A value neither starts with a closing bracket nor ends with an opening one. */
  lemma {:induction false} Ends(j: Json)
    requires Good(j)
    ensures var c := Compact(j); c != "" && c[0] !in {']', '}'} && c[|c| - 1] !in {'[', '{'}
  {
  }

  lemma {:induction false} ItemsEnd(items: Items)
    requires GoodItems(items) && items.Item?
    ensures var c := CompactItems(items); c != "" && c[0] !in {']', '}'} && c[|c| - 1] !in {'[', '{'}
  {
    Ends(items.value);
    if items.rest.Item? {
      ItemsEnd(items.rest);
    }
  }

  lemma {:induction false} MembersEnd(members: Members)
    requires GoodMembers(members) && members.Member?
    ensures var c := CompactMembers(members); c != "" && c[0] !in {']', '}'} && c[|c| - 1] !in {'[', '{'}
  {
    Ends(members.value);
    if members.rest.Member? {
      MembersEnd(members.rest);
    }
  }

  lemma {:induction false} GoesValue(text: string, i: nat, level: nat, j: Json)
    requires Good(j) && At(text, i, Compact(j))
    ensures Goes(text, i, level, Outside, Pretty(j, level), i + |Compact(j)|, level, Outside)
    decreases j, 2
  {
    hide Goes, At, Line;
    match j
    case Token(scalar) => GoesScalar(text, i, level, scalar);
    case Text(body) => GoesString(text, i, level, body);
    case List(items) => GoesList(text, i, level, items);
    case Object(members) => GoesObject(text, i, level, members);
  }

  lemma {:induction false} GoesList(text: string, i: nat, level: nat, items: Items)
    requires GoodItems(items) && At(text, i, "[" + CompactItems(items) + "]")
    ensures Goes(text, i, level, Outside, Pretty(List(items), level), i + |CompactItems(items)| + 2, level, Outside)
    decreases items, 1
  {
    hide Goes, At, Line;
    var inner := CompactItems(items);
    AtBrackets(text, i, "[", inner, "]");
    if items.NoItems? {
      GoesEmpty(text, i, level);
      assert [text[i], text[i + 1]] == "[]";
    } else {
      ItemsEnd(items);
      AtFirst(text, i + 1, inner);
      GoesIn(text, i, level);
      GoesItems(text, i + 1, level + 1, items);
      GoesOut(text, i + 1 + |inner|, level);
      var k := i + 1 + |inner|;
      GoesOn(text, i, level, Outside, "[" + Line(level + 1), i + 1, level + 1, Outside, PrettyItems(items, level + 1),
        k, level + 1, Outside);
      GoesOn(text, i, level, Outside, "[" + Line(level + 1) + PrettyItems(items, level + 1), k, level + 1, Outside,
        Line(level) + "]",
             k + 1, level, Outside);
      assert "[" + Line(level + 1) + PrettyItems(items, level + 1) + (Line(level) + "]") == Pretty(List(items), level);
    }
  }

  lemma AtBrackets(text: string, i: nat, left: string, inner: string, right: string)
    requires |left| == |right| == 1 && At(text, i, left + inner + right)
    ensures At(text, i + 1, inner) && i + 1 + |inner| < |text|
    ensures [text[i]] == left && [text[i + 1 + |inner|]] == right
  {
    AtParts(text, i, left + inner, right);
    AtParts(text, i, left, inner);
    AtFirst(text, i, left);
    AtFirst(text, i + 1 + |inner|, right);
  }

  lemma {:induction false} GoesItems(text: string, i: nat, level: nat, items: Items)
    requires GoodItems(items) && items.Item? && At(text, i, CompactItems(items))
    ensures Goes(text, i, level, Outside, PrettyItems(items, level), i + |CompactItems(items)|, level, Outside)
    decreases items, 0
  {
    hide Goes, At, Line;
    var (value, rest) := (items.value, items.rest);
    var k := i + |Compact(value)|;
    if rest.NoItems? {
      assert CompactItems(items) == Compact(value) && PrettyItems(items, level) == Pretty(value, level);
      GoesValue(text, i, level, value);
    } else {
      AtParts(text, i, Compact(value), "," + CompactItems(rest));
      AtParts(text, k, ",", CompactItems(rest));
      AtFirst(text, k, ",");
      GoesValue(text, i, level, value);
      GoesComma(text, k, level);
      GoesItems(text, k + 1, level, rest);
      GoesOn(text, k, level, Outside, "," + Line(level), k + 1, level, Outside, PrettyItems(rest, level),
        i + |CompactItems(items)|, level, Outside);
      GoesOn(text, i, level, Outside, Pretty(value, level), k, level, Outside, "," + Line(level) + PrettyItems(rest, level),
             i + |CompactItems(items)|, level, Outside);
    }
  }

  lemma {:induction false} GoesObject(text: string, i: nat, level: nat, members: Members)
    requires GoodMembers(members) && At(text, i, "{" + CompactMembers(members) + "}")
    ensures Goes(text, i, level, Outside, Pretty(Object(members), level), i + |CompactMembers(members)| + 2, level, Outside)
    decreases members, 3
  {
    hide Goes, At, Line;
    var inner := CompactMembers(members);
    AtBrackets(text, i, "{", inner, "}");
    if members.NoMembers? {
      GoesEmpty(text, i, level);
      assert [text[i], text[i + 1]] == "{}";
    } else {
      MembersEnd(members);
      AtFirst(text, i + 1, inner);
      GoesIn(text, i, level);
      GoesMembers(text, i + 1, level + 1, members);
      GoesOut(text, i + 1 + |inner|, level);
      var k := i + 1 + |inner|;
      GoesOn(text, i, level, Outside, "{" + Line(level + 1), i + 1, level + 1, Outside, PrettyMembers(members, level + 1),
        k, level + 1, Outside);
      GoesOn(text, i, level, Outside, "{" + Line(level + 1) + PrettyMembers(members, level + 1), k, level + 1, Outside,
        Line(level) + "}",
             k + 1, level, Outside);
      assert "{" + Line(level + 1) + PrettyMembers(members, level + 1) + (Line(level) + "}") == Pretty(Object(members), level);
    }
  }

  lemma {:induction false} GoesMembers(text: string, i: nat, level: nat, members: Members)
    requires GoodMembers(members) && members.Member? && At(text, i, CompactMembers(members))
    ensures Goes(text, i, level, Outside, PrettyMembers(members, level), i + |CompactMembers(members)|, level, Outside)
    decreases members, 2
  {
    hide Goes, At, Line, Compact, Pretty;
    var (name, value, rest) := (members.name, members.value, members.rest);
    var pair := "\"" + name + "\"" + ":" + Compact(value);
    var (k, end) := (i + |pair|, i + |CompactMembers(members)|);
    var shown := "\"" + name + "\"" + ":" + " " + Pretty(value, level);
    if rest.NoMembers? {
      assert pair + "" == pair && shown + "" == shown;
      GoesPair(text, i, level, name, value);
    } else {
      AtParts(text, i, pair, "," + CompactMembers(rest));
      AtParts(text, k, ",", CompactMembers(rest));
      AtFirst(text, k, ",");
      GoesPair(text, i, level, name, value);
      GoesComma(text, k, level);
      GoesMembers(text, k + 1, level, rest);
      GoesOn(text, k, level, Outside, "," + Line(level), k + 1, level, Outside, PrettyMembers(rest, level), end, level, Outside);
      GoesOn(text, i, level, Outside, shown, k, level, Outside, "," + Line(level) + PrettyMembers(rest, level),
        end, level, Outside);
    }
  }

  lemma {:induction false} GoesPair(text: string, i: nat, level: nat, name: string, value: Json)
    requires Quotable(name) && Good(value) && At(text, i, "\"" + name + "\"" + ":" + Compact(value))
    ensures Goes(text, i, level, Outside, "\"" + name + "\"" + ":" + " " + Pretty(value, level),
                 i + |"\"" + name + "\"" + ":" + Compact(value)|, level, Outside)
    decreases value, 3
  {
    hide Goes, At, Line, Compact, Pretty, Good;
    var quoted := "\"" + name + "\"";
    var (k, n) := (i + |quoted|, i + |quoted| + 1 + |Compact(value)|);
    AtParts(text, i, quoted + ":", Compact(value));
    AtParts(text, i, quoted, ":");
    AtFirst(text, k, ":");
    GoesString(text, i, level, name);
    GoesColon(text, k, level);
    GoesValue(text, k + 1, level, value);
    GoesOn(text, i, level, Outside, quoted, k, level, Outside, ":" + " ", k + 1, level, Outside);
    GoesOn(text, i, level, Outside, quoted + (":" + " "), k + 1, level, Outside, Pretty(value, level), n, level, Outside);
    assert quoted + (":" + " ") == quoted + ":" + " ";
  }

  /** Indenting the compact text of a JSON value lays the value out. */
  lemma IndentLaysOut(j: Json)
    requires Good(j)
    ensures Indented(Compact(j)) == Pretty(j, 0)
  {
    hide Pretty, Good, Compact, IndentFrom;
    var text := Compact(j);
    assert text[0..0 + |text|] == text;
    GoesValue(text, 0, 0, j);
    IndentFromStep(text, |text|, 0, Outside);
    IndentedIs(text);
    assert Pretty(j, 0) + "" == Pretty(j, 0);
  }
}
