/**
 Lexical paths as the program sees them: plain strings with `/` between components.
 The functions here are Go's lexical `Clean`, `Join`, `Dir` and `Base` (the program
 reaches them through its core module); a Go byte is modelled by a `char`.
 The lemmas connect the string operations to sequences of components.
 */
module Paths {

  /** An ordinary component: not empty, not a dot name, no separator inside. */
  predicate Normal(c: string) {
    c != "" && c != "." && c != ".." && '/' !in c
  }

  type Components = cs: seq<string> | forall c :: c in cs ==> Normal(c) witness []

  /** A path as the core functions return it, in pieces. */
  function Abs(cs: seq<string>): string {
    "/" + Join(cs)
  }

  /** Clean relative path: at least one component, every component ordinary. */
  predicate CleanRelative(p: string) {
    forall c :: c in Split(p) ==> Normal(c)
  }

  predicate HasPrefix(s: string, prefix: string) {
    |prefix| <= |s| && s[..|prefix|] == prefix
  }

  predicate HasSuffix(s: string, suffix: string) {
    |suffix| <= |s| && s[|s| - |suffix|..] == suffix
  }

  function TrimPrefix(s: string, prefix: string): string {
    if HasPrefix(s, prefix) then s[|prefix|..] else s
  }

  /** `strings.Split(s, "/")`. */
  function Split(s: string): (parts: seq<string>)
    ensures |parts| >= 1
    ensures forall c :: c in parts ==> '/' !in c
  {
    if s == "" then [""]
    else
      var rest := Split(s[1..]);
      if s[0] == '/' then [""] + rest else [[s[0]] + rest[0]] + rest[1..]
  }

  /** `strings.Join(parts, "/")`. */
  function Join(parts: seq<string>): string {
    if parts == [] then ""
    else if |parts| == 1 then parts[0]
    else parts[0] + "/" + Join(parts[1..])
  }

  /** One step of Go's `Clean`: what a component does to the output so far. */
  function Push(out: seq<string>, part: string, rooted: bool): seq<string> {
    if part == "" || part == "." then out
    else if part == ".." then
      if out != [] && out[|out| - 1] != ".." then out[..|out| - 1]
      else if rooted then out
      else out + [".."]
    else out + [part]
  }

  function Fold(out: seq<string>, parts: seq<string>, rooted: bool): seq<string>
    decreases |parts|
  {
    if parts == [] then out else Fold(Push(out, parts[0], rooted), parts[1..], rooted)
  }

  function Clean(p: string): string {
    if p == "" then "."
    else
      var rooted := p[0] == '/';
      var out := Fold([], Split(p), rooted);
      if rooted then Abs(out) else if out == [] then "." else Join(out)
  }

  function NonEmpty(parts: seq<string>): (kept: seq<string>)
    ensures forall c :: c in kept ==> c != ""
  {
    if parts == [] then []
    else (if parts[0] == "" then [] else [parts[0]]) + NonEmpty(parts[1..])
  }

  lemma {:induction false} NonEmptyAll(parts: seq<string>)
    requires forall c :: c in parts ==> c != ""
    ensures NonEmpty(parts) == parts
  {
    if parts != [] {
      assert forall c :: c in parts[1..] ==> c in parts;
      assert parts[0] in parts;
      NonEmptyAll(parts[1..]);
    }
  }

  /** Go's `Join`: empty elements are dropped, the rest is joined and cleaned. */
  function PathJoin(parts: seq<string>): string {
    var kept := NonEmpty(parts);
    if kept == [] then "" else Clean(Join(kept))
  }

  /** Everything up to and including the last separator. */
  function DirPart(p: string): (d: string)
    ensures |d| <= |p|
    ensures d != "" ==> d[|d| - 1] == '/'
  {
    if p == "" then "" else if p[|p| - 1] == '/' then p else DirPart(p[..|p| - 1])
  }

  function PathDir(p: string): string {
    Clean(DirPart(p))
  }

  function TrimTrailingSlashes(p: string): string {
    if p != "" && p[|p| - 1] == '/' then TrimTrailingSlashes(p[..|p| - 1]) else p
  }

  function PathBase(p: string): string {
    if p == "" then "."
    else
      var t := TrimTrailingSlashes(p);
      if t == "" then "/" else t[|DirPart(t)|..]
  }

  /** `strings.ReplaceAll(p, "\\", "/")`. */
  function NormaliseSlashes(p: string): (q: string)
    ensures |q| == |p|
    ensures forall i :: 0 <= i < |p| ==> q[i] == if p[i] == '\\' then '/' else p[i]
  {
    seq(|p|, i requires 0 <= i < |p| => if p[i] == '\\' then '/' else p[i])
  }

  // Splitting and joining

  lemma SplitCons(c: char, s: string)
    ensures Split([c] + s) == if c == '/' then [""] + Split(s) else [[c] + Split(s)[0]] + Split(s)[1..]
  {
    assert ([c] + s)[1..] == s;
  }

  lemma Associative<T>(a: seq<T>, b: seq<T>, c: seq<T>)
    ensures a + (b + c) == (a + b) + c
  {
  }

  lemma JoinCons(first: string, rest: seq<string>)
    ensures Join([first] + rest) == if rest == [] then first else first + "/" + Join(rest)
  {
    assert ([first] + rest)[1..] == rest;
  }

  lemma JoinGrowFirst(c: char, parts: seq<string>)
    requires parts != []
    ensures Join([[c] + parts[0]] + parts[1..]) == [c] + Join(parts)
    ensures Join([""] + parts) == "/" + Join(parts)
  {
    hide Join;
    var first, rest := parts[0], parts[1..];
    assert parts == [first] + rest;
    JoinCons(first, rest);
    JoinCons([c] + first, rest);
    JoinCons("", parts);
    assert "" + "/" == "/";
    Associative([c], first + "/", Join(rest));
    Associative([c], first, "/");
  }

  lemma {:induction false} JoinSplit(s: string)
    ensures Join(Split(s)) == s
  {
    if s != "" {
      hide Split, Join;
      JoinSplit(s[1..]);
      SplitCons(s[0], s[1..]);
      JoinGrowFirst(s[0], Split(s[1..]));
      assert s == [s[0]] + s[1..];
    }
  }

  lemma SplitConsConcat(c: char, parts: seq<string>, more: seq<string>)
    requires parts != []
    ensures [""] + (parts + more) == ([""] + parts) + more
    ensures [[c] + (parts + more)[0]] + (parts + more)[1..] == ([[c] + parts[0]] + parts[1..]) + more
  {
    assert (parts + more)[1..] == parts[1..] + more;
  }

  lemma {:induction false} SplitConcat(a: string, b: string)
    ensures Split(a + "/" + b) == Split(a) + Split(b)
  {
    if a == "" {
      assert a + "/" + b == ['/'] + b;
    } else {
      hide Split;
      SplitConcat(a[1..], b);
      SplitCons(a[0], a[1..]);
      SplitCons(a[0], a[1..] + "/" + b);
      SplitConsConcat(a[0], Split(a[1..]), Split(b));
      assert a == [a[0]] + a[1..];
      assert a + "/" + b == [a[0]] + (a[1..] + "/" + b);
    }
  }

  lemma {:induction false} SplitSingle(c: string)
    requires '/' !in c
    ensures Split(c) == [c]
  {
    if c != "" {
      SplitSingle(c[1..]);
      assert c == [c[0]] + c[1..];
    }
  }

  lemma {:induction false} SplitJoin(cs: seq<string>)
    requires cs != []
    requires forall c :: c in cs ==> '/' !in c
    ensures Split(Join(cs)) == cs
  {
    SplitSingle(cs[0]);
    if |cs| > 1 {
      SplitJoin(cs[1..]);
      SplitConcat(cs[0], Join(cs[1..]));
      assert cs == [cs[0]] + cs[1..];
    } else {
      assert cs == [cs[0]];
    }
  }

  lemma {:induction false} JoinConcat(a: seq<string>, b: seq<string>)
    requires a != [] && b != []
    ensures Join(a + b) == Join(a) + "/" + Join(b)
  {
    if |a| == 1 {
      assert (a + b)[1..] == b;
    } else {
      JoinConcat(a[1..], b);
      assert (a + b)[1..] == a[1..] + b;
      assert a[0] + "/" + (Join(a[1..]) + "/" + Join(b)) == a[0] + "/" + Join(a[1..]) + "/" + Join(b);
    }
  }

  // Cleaning

  lemma {:induction false} FoldConcat(out: seq<string>, a: seq<string>, b: seq<string>, rooted: bool)
    ensures Fold(out, a + b, rooted) == Fold(Fold(out, a, rooted), b, rooted)
    decreases |a|
  {
    hide Push;
    if a == [] {
      assert a + b == b;
    } else {
      assert (a + b)[0] == a[0] && (a + b)[1..] == a[1..] + b;
      FoldConcat(Push(out, a[0], rooted), a[1..], b, rooted);
    }
  }

  lemma {:induction false} FoldNormal(out: seq<string>, cs: Components, rooted: bool)
    ensures Fold(out, cs, rooted) == out + cs
    decreases |cs|
  {
    if cs == [] {
      assert out + cs == out;
    } else {
      FoldNormal(out + [cs[0]], cs[1..], rooted);
      assert out + [cs[0]] + cs[1..] == out + cs;
    }
  }

  lemma PushNormal(out: Components, part: string, rooted: bool)
    requires '/' !in part && (rooted || part != "..")
    ensures forall c :: c in Push(out, part, rooted) ==> Normal(c)
  {
    assert Normal(part) || part == "" || part == "." || part == "..";
  }

  /** A rooted clean never leaves a dot name behind: `..` at the root is dropped. */
  lemma {:induction false} FoldRooted(out: Components, parts: seq<string>)
    requires forall c :: c in parts ==> '/' !in c
    ensures forall c :: c in Fold(out, parts, true) ==> Normal(c)
    decreases |parts|
  {
    if parts != [] {
      assert parts[0] in parts;
      PushNormal(out, parts[0], true);
      FoldRooted(Push(out, parts[0], true), parts[1..]);
    }
  }

  /** A relative clean of parts without `..` keeps exactly the ordinary ones. */
  lemma {:induction false} FoldNoParent(out: Components, parts: seq<string>)
    requires forall c :: c in parts ==> '/' !in c && c != ".."
    ensures forall c :: c in Fold(out, parts, false) ==> Normal(c)
    ensures |Fold(out, parts, false)| >= |out|
    decreases |parts|
  {
    if parts != [] {
      assert parts[0] in parts;
      PushNormal(out, parts[0], false);
      FoldNoParent(Push(out, parts[0], false), parts[1..]);
    }
  }

  lemma SplitAbs(cs: Components)
    ensures cs == [] ==> Split(Abs(cs)) == ["", ""]
    ensures cs != [] ==> Split(Abs(cs)) == [""] + cs
  {
    SplitConcat("", Join(cs));
    assert "" + "/" + Join(cs) == Abs(cs);
    assert Split("") == [""];
    if cs != [] {
      SplitJoin(cs);
    }
  }

  lemma AbsInjective(a: Components, b: Components)
    requires Abs(a) == Abs(b)
    ensures a == b
  {
    FoldAbs(a);
    FoldAbs(b);
  }

  lemma CleanAbs(cs: Components)
    ensures Clean(Abs(cs)) == Abs(cs)
  {
    FoldAbs(cs);
  }

  lemma FoldAbs(cs: Components)
    ensures Fold([], Split(Abs(cs)), true) == cs
  {
    SplitAbs(cs);
    FoldConcat([], [""], if cs == [] then [""] else cs, true);
    assert Fold([], [""], true) == [];
    if cs != [] {
      FoldNormal([], cs, true);
      assert [] + cs == cs;
    } else {
      assert [""] + [""] == ["", ""];
    }
  }

  /** `core.Path(current, part)` for a clean absolute `current`, dots in `part` included. */
  lemma PathAbs(cs: Components, part: string)
    ensures PathJoin([Abs(cs), part]) == Abs(Fold(cs, Split(part), true))
  {
    FoldAbs(cs);
    assert [Abs(cs), part][1..] == [part];
    assert NonEmpty([part]) == if part == "" then [] else [part];
    if part == "" {
      assert NonEmpty([Abs(cs), part]) == [Abs(cs)];
      CleanAbs(cs);
      assert Split(part) == [""];
      assert Fold(cs, [""], true) == cs;
    } else {
      var kept := [Abs(cs), part];
      assert NonEmpty([Abs(cs), part]) == kept;
      assert Join(kept) == Abs(cs) + "/" + part;
      SplitConcat(Abs(cs), part);
      FoldConcat([], Split(Abs(cs)), Split(part), true);
    }
  }

  lemma PathAbsChild(cs: Components, part: string)
    requires Normal(part)
    ensures PathJoin([Abs(cs), part]) == Abs(cs + [part])
  {
    PathAbs(cs, part);
    SplitSingle(part);
    FoldNormal(cs, [part], true);
  }

  // Prefix tests on strings are prefix tests on components

  lemma {:induction false} JoinPrefix(a: Components, b: Components)
    requires a != [] && b != []
    ensures HasPrefix(Join(b), Join(a) + "/") <==> |a| < |b| && b[..|a|] == a
  {
    hide Split, Join;
    var p, d := Join(b), Join(a);
    SplitJoin(a);
    SplitJoin(b);
    if HasPrefix(p, d + "/") {
      var rest := p[|d| + 1..];
      assert p == (d + "/") + rest;
      SplitConcat(d, rest);
      assert b == a + Split(rest);
    }
    if |a| < |b| && b[..|a|] == a {
      assert b == a + b[|a|..];
      JoinConcat(a, b[|a|..]);
    }
  }
}
