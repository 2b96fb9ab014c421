/** The JSON indenter (go/sigil/sigils.go), byte by byte; bytes are modelled by `char`. */
module JsonIndent {
  import Paths

  // The indenter looks one byte ahead and one behind and never parses.  `Stripped` and `Level` give
  // its input and output a meaning of their own, and the theorems compare the two.

  /** Where a byte stands: outside string literals, inside one, or after a backslash in one. */
  datatype Lex = Outside | InString | Escaped

  function Next(q: Lex, ch: char): Lex {
    match q
    case Outside => if ch == '"' then InString else Outside
    case InString => if ch == '\\' then Escaped else if ch == '"' then Outside else InString
    case Escaped => InString
  }

  predicate IsOpener(ch: char) { ch == '{' || ch == '[' }

  predicate IsCloser(ch: char) { ch == '}' || ch == ']' }

  /** Two spaces for each level; a negative level writes none. */
  function Spaces(level: int): string
    decreases level
  {
    if level <= 0 then "" else "  " + Spaces(level - 1)
  }

  // What the program computes

  function LevelAfter(compact: string, i: nat, indent: int): int
    requires i < |compact|
  {
    if IsOpener(compact[i]) then
      if i + 1 >= |compact| || IsCloser(compact[i + 1]) then indent else indent + 1
    else if IsCloser(compact[i]) then
      if i == 0 || IsOpener(compact[i - 1]) then indent else indent - 1
    else indent
  }

  /** What is written for one byte outside strings, given the level after it. */
  function Piece(ch: char, breaks: bool, level: int): string {
    if IsOpener(ch) && breaks then [ch] + "\n" + Spaces(level)
    else if IsCloser(ch) && breaks then "\n" + Spaces(level) + [ch]
    else if ch == ',' then ",\n" + Spaces(level)
    else if ch == ':' then ": "
    else [ch]
  }

  function Written(compact: string, i: nat, indent: int, q: Lex): string
    requires i < |compact|
  {
    if q != Outside then [compact[i]]
    else
      var level := LevelAfter(compact, i, indent);
      Piece(compact[i], level != indent, level)
  }

  function IndentFrom(compact: string, i: nat, indent: int, q: Lex): string
    requires i <= |compact|
    decreases |compact| - i
  {
    if i == |compact| then ""
    else
      Written(compact, i, indent, q) +
      IndentFrom(compact, i + 1, if q == Outside then LevelAfter(compact, i, indent) else indent, Next(q, compact[i]))
  }

  function Indented(compact: string): string {
    IndentFrom(compact, 0, 0, Outside)
  }

  /** The string builder the indenter writes to. */
  class Builder {
    var text: string

    constructor ()
      ensures text == ""
    {
      text := "";
    }

    method WriteByte(ch: char)
      modifies this
      ensures text == old(text) + [ch]
    {
      text := text + [ch];
    }

    method WriteString(s: string)
      modifies this
      ensures text == old(text) + s
    {
      text := text + s;
    }
  }

  lemma {:induction false} SpacesGrow(level: nat)
    ensures Spaces(level) + "  " == Spaces(level + 1)
  {
    if level > 0 {
      SpacesGrow(level - 1);
      assert "  " + Spaces(level - 1) + "  " == "  " + (Spaces(level - 1) + "  ");
    }
  }

  method WriteJsonIndent(builder: Builder, level: int)
    modifies builder
    ensures builder.text == old(builder.text) + Spaces(level)
  {
    var i := 0;
    while i < level
      invariant 0 <= i && (i <= level || i == 0)
      invariant builder.text == old(builder.text) + Spaces(i)
    {
      SpacesGrow(i);
      builder.WriteString("  ");
      i := i + 1;
    }
  }

  method WriteJsonStringByte(builder: Builder, ch: char, escaped: bool) returns (inString: bool, nowEscaped: bool)
    modifies builder
    ensures builder.text == old(builder.text) + [ch]
    ensures var q := Next(if escaped then Escaped else InString, ch);
            inString == (q != Outside) && nowEscaped == (q == Escaped)
  {
    builder.WriteByte(ch);
    if escaped {
      return true, false;
    }
    if ch == '\\' {
      return true, true;
    }
    return ch != '"', false;
  }

  method WriteJsonOpenContainer(builder: Builder, compact: string, index: nat, indent: int) returns (level: int)
    requires index < |compact| && IsOpener(compact[index])
    modifies builder
    ensures level == LevelAfter(compact, index, indent)
    ensures builder.text == old(builder.text) + if level == indent then "" else "\n" + Spaces(level)
  {
    if index + 1 >= |compact| || compact[index + 1] == '}' || compact[index + 1] == ']' {
      return indent;
    }
    level := indent + 1;
    builder.WriteByte('\n');
    WriteJsonIndent(builder, level);
  }

  method WriteJsonCloseContainer(builder: Builder, compact: string, index: nat, indent: int) returns (level: int)
    requires index < |compact| && IsCloser(compact[index])
    modifies builder
    ensures level == LevelAfter(compact, index, indent)
    ensures builder.text == old(builder.text) + if level == indent then "" else "\n" + Spaces(level)
  {
    if index == 0 || compact[index - 1] == '{' || compact[index - 1] == '[' {
      return indent;
    }
    level := indent - 1;
    builder.WriteByte('\n');
    WriteJsonIndent(builder, level);
  }

  method WriteJsonStructuralByte(builder: Builder, compact: string, index: nat, indent: int) returns (level: int,
      inString: bool)
    requires index < |compact|
    modifies builder
    ensures level == LevelAfter(compact, index, indent)
    ensures inString == (Next(Outside, compact[index]) != Outside)
    ensures builder.text == old(builder.text) + Written(compact, index, indent, Outside)
  {
    var ch := compact[index];
    level, inString := indent, false;
    if ch == '"' {
      builder.WriteByte(ch);
      inString := true;
    } else if ch == '{' || ch == '[' {
      builder.WriteByte(ch);
      level := WriteJsonOpenContainer(builder, compact, index, indent);
    } else if ch == '}' || ch == ']' {
      level := WriteJsonCloseContainer(builder, compact, index, indent);
      builder.WriteByte(ch);
    } else if ch == ',' {
      builder.WriteByte(ch);
      builder.WriteByte('\n');
      WriteJsonIndent(builder, indent);
    } else if ch == ':' {
      builder.WriteString(": ");
    } else {
      builder.WriteByte(ch);
    }
  }

  method IndentJson(compact: string) returns (text: string)
    ensures text == Indented(compact)
  {
    if compact == "" {
      return "";
    }
    var builder := new Builder();
    var indent, inString, escaped := 0, false, false;
    ghost var q := Outside;
    hide *;
    IndentedIs(compact);
    for i := 0 to |compact|
      invariant inString == (q != Outside) && escaped == (q == Escaped)
      invariant builder.text + IndentFrom(compact, i, indent, q) == Indented(compact)
    {
      IndentFromStep(compact, i, indent, q);
      var ch := compact[i];
      ghost var piece, level := Written(compact, i, indent, q), if q == Outside then LevelAfter(compact, i, indent) else indent;
      q := Next(q, ch);
      Paths.Associative(builder.text, piece, IndentFrom(compact, i + 1, level, q));
      if inString {
        inString, escaped := WriteJsonStringByte(builder, ch, escaped);
      } else {
        indent, inString := WriteJsonStructuralByte(builder, compact, i, indent);
        NotEscaped(ch);
      }
    }
    IndentFromStep(compact, |compact|, indent, q);
    text := builder.text;
  }

  lemma NotEscaped(ch: char)
    ensures Next(Outside, ch) != Escaped
  {
  }

  lemma IndentedIs(compact: string)
    ensures Indented(compact) == IndentFrom(compact, 0, 0, Outside)
  {
  }

  lemma IndentFromStep(compact: string, i: nat, indent: int, q: Lex)
    requires i <= |compact|
    ensures i == |compact| ==> IndentFrom(compact, i, indent, q) == ""
    ensures i < |compact| ==>
              var level := if q == Outside then LevelAfter(compact, i, indent) else indent;
              IndentFrom(compact, i, indent, q) ==
              Written(compact, i, indent, q) + IndentFrom(compact, i + 1, level, Next(q, compact[i]))
    ensures i < |compact| && q != Outside ==> Written(compact, i, indent, q) == [compact[i]]
  {
  }

  // Meaning is kept

  /** The text without the spaces and newlines that stand outside string literals. */
  function Stripped(s: string, q: Lex): string
    decreases |s|
  {
    if s == "" then ""
    else (if q == Outside && (s[0] == ' ' || s[0] == '\n') then "" else [s[0]]) + Stripped(s[1..], Next(q, s[0]))
  }

  function LexAfter(q: Lex, s: string): Lex
    decreases |s|
  {
    if s == "" then q else LexAfter(Next(q, s[0]), s[1..])
  }

  lemma StrippedCons(ch: char, s: string, q: Lex)
    ensures Stripped([ch] + s, q) ==
            (if q == Outside && (ch == ' ' || ch == '\n') then "" else [ch]) + Stripped(s, Next(q, ch))
    ensures LexAfter(q, [ch] + s) == LexAfter(Next(q, ch), s)
    ensures Stripped("", q) == "" && LexAfter(q, "") == q
  {
    assert ([ch] + s)[1..] == s;
  }

  lemma {:induction false} StrippedConcat(a: string, b: string, q: Lex)
    ensures Stripped(a + b, q) == Stripped(a, q) + Stripped(b, LexAfter(q, a))
    ensures LexAfter(q, a + b) == LexAfter(LexAfter(q, a), b)
    decreases |a|
  {
    hide *;
    if a == "" {
      assert a + b == b;
      StrippedCons(' ', "", q);
    } else {
      StrippedConcat(a[1..], b, Next(q, a[0]));
      StrippedCons(a[0], a[1..], q);
      StrippedCons(a[0], a[1..] + b, q);
      assert a == [a[0]] + a[1..] && a + b == [a[0]] + (a[1..] + b);
    }
  }

  lemma {:induction false} SpacesStripped(level: int)
    ensures Stripped(Spaces(level), Outside) == "" && LexAfter(Outside, Spaces(level)) == Outside
    decreases level
  {
    if level > 0 {
      SpacesStripped(level - 1);
      StrippedConcat("  ", Spaces(level - 1), Outside);
      assert Stripped("  ", Outside) == Stripped(" ", Outside) == "" by {
        assert "  "[1..] == " " && " "[1..] == "";
      }
      assert LexAfter(Outside, "  ") == Outside by {
        assert "  "[1..] == " " && " "[1..] == "";
      }
    }
  }

  lemma StrippedOne(ch: char, q: Lex)
    ensures LexAfter(q, [ch]) == Next(q, ch)
    ensures Stripped([ch], q) == if q == Outside && (ch == ' ' || ch == '\n') then "" else [ch]
  {
    assert [ch][1..] == "";
    assert LexAfter(q, [ch]) == LexAfter(Next(q, ch), "");
  }

  lemma PieceStripped(ch: char, breaks: bool, level: int)
    ensures Stripped(Piece(ch, breaks, level), Outside) == Stripped([ch], Outside)
    ensures LexAfter(Outside, Piece(ch, breaks, level)) == Next(Outside, ch)
  {
    hide Stripped, LexAfter, Spaces;
    SpacesStripped(level);
    StrippedOne(ch, Outside);
    StrippedOne('\n', Outside);
    StrippedOne(' ', Outside);
    StrippedConcat("\n", Spaces(level), Outside);
    StrippedConcat("\n" + Spaces(level), [ch], Outside);
    StrippedConcat([ch], "\n" + Spaces(level), Outside);
    StrippedConcat([ch], " ", Outside);
    assert [ch] + "\n" + Spaces(level) == [ch] + ("\n" + Spaces(level));
    assert ch == ',' ==> ",\n" + Spaces(level) == [ch] + ("\n" + Spaces(level));
    assert ch == ':' ==> ": " == [ch] + " ";
  }

  lemma WrittenStripped(compact: string, i: nat, indent: int, q: Lex)
    requires i < |compact|
    ensures Stripped(Written(compact, i, indent, q), q) == Stripped([compact[i]], q)
    ensures LexAfter(q, Written(compact, i, indent, q)) == Next(q, compact[i])
  {
    hide Stripped, LexAfter, Piece, LevelAfter;
    StrippedOne(compact[i], q);
    var level := LevelAfter(compact, i, indent);
    PieceStripped(compact[i], level != indent, level);
  }

  lemma {:induction false} IndentFromStripped(compact: string, i: nat, indent: int, q: Lex)
    requires i <= |compact|
    ensures Stripped(IndentFrom(compact, i, indent, q), q) == Stripped(compact[i..], q)
    decreases |compact| - i
  {
    hide *;
    IndentFromStep(compact, i, indent, q);
    if i == |compact| {
      assert compact[i..] == "";
    } else {
      var ch := compact[i];
      var level := if q == Outside then LevelAfter(compact, i, indent) else indent;
      IndentFromStripped(compact, i + 1, level, Next(q, ch));
      WrittenStripped(compact, i, indent, q);
      StrippedConcat(Written(compact, i, indent, q), IndentFrom(compact, i + 1, level, Next(q, ch)), q);
      StrippedOne(ch, q);
      StrippedConcat([ch], compact[i + 1..], q);
      assert compact[i..] == [ch] + compact[i + 1..];
    }
  }

  /** Indenting changes nothing but white space outside string literals, on any input at all. */
  lemma IndentKeepsMeaning(compact: string)
    ensures Stripped(Indented(compact), Outside) == Stripped(compact, Outside)
  {
    IndentFromStripped(compact, 0, 0, Outside);
    assert compact[0..] == compact;
  }

  // The level is the nesting level

  function LexAt(compact: string, k: nat): Lex
    requires k <= |compact|
  {
    if k == 0 then Outside else Next(LexAt(compact, k - 1), compact[k - 1])
  }

  /** The positions of the brackets that are open after `k` bytes, outermost first. */
  function OpenAt(compact: string, k: nat): seq<nat>
    requires k <= |compact|
  {
    if k == 0 then []
    else
      var before := OpenAt(compact, k - 1);
      var ch := compact[k - 1];
      if LexAt(compact, k - 1) != Outside then before
      else if IsOpener(ch) then before + [k - 1]
      else if IsCloser(ch) && before != [] then before[..|before| - 1]
      else before
  }

  /** Every closer outside strings has an opener to close, and none stays open. */
  ghost predicate Balanced(compact: string) {
    (forall k | 0 <= k < |compact| ::
       LexAt(compact, k) == Outside && IsCloser(compact[k]) ==> OpenAt(compact, k) != []) &&
    OpenAt(compact, |compact|) == []
  }

  /** The container opened at `t` is not closed at once. */
  predicate NonEmpty(compact: string, t: nat) {
    t + 1 < |compact| && !IsCloser(compact[t + 1])
  }

  function CountNonEmpty(compact: string, open: seq<nat>): nat
    decreases |open|
  {
    if open == [] then 0
    else CountNonEmpty(compact, open[..|open| - 1]) + if NonEmpty(compact, open[|open| - 1]) then 1 else 0
  }

  /** How many non-empty containers are open after `k` bytes. */
  function Level(compact: string, k: nat): nat
    requires k <= |compact|
  {
    CountNonEmpty(compact, OpenAt(compact, k))
  }

  /** The level the program carries after `k` bytes. */
  function IndentAt(compact: string, k: nat): int
    requires k <= |compact|
  {
    if k == 0 then 0
    else if LexAt(compact, k - 1) == Outside then LevelAfter(compact, k - 1, IndentAt(compact, k - 1))
    else IndentAt(compact, k - 1)
  }

  lemma OpenBefore(compact: string, k: nat, t: nat)
    requires 0 < k <= |compact| && t in OpenAt(compact, k)
    ensures t in OpenAt(compact, k - 1) ||
            (t == k - 1 && LexAt(compact, t) == Outside && IsOpener(compact[t]) && OpenAt(compact, k) == OpenAt(compact, t) + [t])
  {
    hide LexAt;
  }

  lemma {:induction false} OpenBelow(compact: string, k: nat, t: nat)
    requires k <= |compact| && t in OpenAt(compact, k)
    ensures t < k && IsOpener(compact[t])
    ensures t == k - 1 ==> LexAt(compact, t) == Outside && OpenAt(compact, k) == OpenAt(compact, t) + [t]
  {
    if k > 0 {
      OpenBefore(compact, k, t);
      if t in OpenAt(compact, k - 1) {
        hide OpenAt, LexAt;
        OpenBelow(compact, k - 1, t);
      }
    }
  }

  /** A closer that comes right after the opener takes it away again. */
  lemma OpenedThenClosed(compact: string, k: nat, t: nat)
    requires 0 < k < |compact| && t == k - 1 && t in OpenAt(compact, k)
    requires IsCloser(compact[k])
    ensures t !in OpenAt(compact, k + 1)
  {
    OpenBelow(compact, k, t);
    if t in OpenAt(compact, t) {
      OpenBelow(compact, t, t);
    }
    var before := OpenAt(compact, t);
    assert LexAt(compact, k) == Outside;
    assert OpenAt(compact, k + 1) == (before + [t])[..|before|] == before;
  }

  /** A bracket still open was not closed by the byte after it. */
  lemma {:induction false} OpenStays(compact: string, k: nat, t: nat)
    requires k <= |compact| && t in OpenAt(compact, k) && t + 1 < k
    ensures !IsCloser(compact[t + 1])
  {
    hide LexAt, OpenAt;
    OpenBefore(compact, k, t);
    if t + 1 < k - 1 {
      OpenStays(compact, k - 1, t);
    } else if IsCloser(compact[t + 1]) {
      OpenedThenClosed(compact, k - 1, t);
    }
  }

  lemma LastOpened(compact: string, k: nat)
    requires 0 < k <= |compact| && LexAt(compact, k) == Outside && IsOpener(compact[k - 1])
    ensures OpenAt(compact, k) == OpenAt(compact, k - 1) + [k - 1]
  {
  }

  /** The look-behind is right: a closer follows its opener at once exactly when that is the last byte. */
  lemma CloserLooksBehind(compact: string, k: nat)
    requires k < |compact| && LexAt(compact, k) == Outside && IsCloser(compact[k]) && OpenAt(compact, k) != []
    ensures var open := OpenAt(compact, k);
            (k == 0 || IsOpener(compact[k - 1])) <==> !NonEmpty(compact, open[|open| - 1])
  {
    hide OpenAt, LexAt;
    var open := OpenAt(compact, k);
    var t := open[|open| - 1];
    assert t in open;
    OpenBelow(compact, k, t);
    if t + 1 < k {
      OpenStays(compact, k, t);
    }
    if IsOpener(compact[k - 1]) {
      LastOpened(compact, k);
    }
  }

  lemma LevelOfPushed(compact: string, open: seq<nat>, t: nat)
    ensures CountNonEmpty(compact, open + [t]) == CountNonEmpty(compact, open) + if NonEmpty(compact, t) then 1 else 0
  {
    assert (open + [t])[..|open|] == open;
  }

  /** How the nesting level changes over one byte of balanced input. */
  lemma LevelStep(compact: string, k: nat)
    requires Balanced(compact) && k < |compact|
    ensures Level(compact, k + 1) ==
            if LexAt(compact, k) == Outside then LevelAfter(compact, k, Level(compact, k)) else Level(compact, k)
  {
    hide CountNonEmpty, Balanced;
    BalancedAt(compact, k);
    var open := OpenAt(compact, k);
    if LexAt(compact, k) == Outside {
      if IsOpener(compact[k]) {
        LevelOfPushed(compact, open, k);
      } else if IsCloser(compact[k]) {
        CloserLooksBehind(compact, k);
        LevelOfPushed(compact, open[..|open| - 1], open[|open| - 1]);
        assert open == open[..|open| - 1] + [open[|open| - 1]];
      }
    }
  }

  lemma BalancedAt(compact: string, k: nat)
    requires Balanced(compact) && k < |compact|
    ensures LexAt(compact, k) == Outside && IsCloser(compact[k]) ==> OpenAt(compact, k) != []
  {
  }

  lemma IndentAtStep(compact: string, k: nat)
    requires k < |compact|
    ensures IndentAt(compact, k + 1) ==
            if LexAt(compact, k) == Outside then LevelAfter(compact, k, IndentAt(compact, k)) else IndentAt(compact, k)
    ensures LexAt(compact, k + 1) == Next(LexAt(compact, k), compact[k])
  {
  }

  /** On balanced input the program's level is the number of open non-empty containers. */
  lemma {:induction false} IndentIsLevel(compact: string, k: nat)
    requires Balanced(compact) && k <= |compact|
    ensures IndentAt(compact, k) == Level(compact, k)
  {
    hide *;
    if k > 0 {
      IndentIsLevel(compact, k - 1);
      IndentAtStep(compact, k - 1);
      LevelStep(compact, k - 1);
    } else {
      LevelOfNothing(compact);
    }
  }

  lemma LevelOfNothing(compact: string)
    ensures IndentAt(compact, 0) == 0 && Level(compact, 0) == 0
    ensures LexAt(compact, 0) == Outside
    ensures Balanced(compact) ==> Level(compact, |compact|) == 0
  {
  }

  /** The byte at `i` with the white space that belongs to it, from the nesting alone. */
  function Mark(compact: string, i: nat): string
    requires i < |compact|
  {
    var (ch, open) := (compact[i], OpenAt(compact, i));
    if LexAt(compact, i) != Outside then [ch]
    else if ch == '{' || ch == '[' then
      if NonEmpty(compact, i) then [ch, '\n'] + Blanks(2 * Level(compact, i + 1)) else [ch]
    else if ch == '}' || ch == ']' then
      if open != [] && NonEmpty(compact, open[|open| - 1]) then ['\n'] + Blanks(2 * Level(compact, i + 1)) + [ch] else [ch]
    else if ch == ',' then [',', '\n'] + Blanks(2 * Level(compact, i))
    else if ch == ':' then [':', ' ']
    else [ch]
  }

  function Blanks(n: nat): string {
    seq(n, _ => ' ')
  }

  /** What an indenter that knows the nesting would write: two spaces per non-empty container. */
  function Reference(compact: string, i: nat): string
    requires i <= |compact|
    decreases |compact| - i
  {
    if i == |compact| then "" else Mark(compact, i) + Reference(compact, i + 1)
  }

  /** Whether the level changes at a bracket is whether its container is non-empty. */
  lemma LevelAtBracket(compact: string, i: nat)
    requires Balanced(compact) && i < |compact| && LexAt(compact, i) == Outside
    ensures IsOpener(compact[i]) ==> (Level(compact, i + 1) != Level(compact, i) <==> NonEmpty(compact, i))
    ensures var open := OpenAt(compact, i);
            IsCloser(compact[i]) ==>
              open != [] && (Level(compact, i + 1) != Level(compact, i) <==> NonEmpty(compact, open[|open| - 1]))
    ensures !IsOpener(compact[i]) && !IsCloser(compact[i]) ==> Level(compact, i + 1) == Level(compact, i)
  {
    hide CountNonEmpty, Balanced, NonEmpty;
    BalancedAt(compact, i);
    var open := OpenAt(compact, i);
    if IsOpener(compact[i]) {
      LevelOfPushed(compact, open, i);
    } else if IsCloser(compact[i]) {
      LevelOfPushed(compact, open[..|open| - 1], open[|open| - 1]);
      assert open == open[..|open| - 1] + [open[|open| - 1]];
    }
  }

  lemma SpacesAreBlanks(level: nat)
    ensures Spaces(level) == Blanks(2 * level)
  {
    SpacesAreTwicePerLevel(level);
  }

  lemma ReferenceStep(compact: string, i: nat)
    requires Balanced(compact) && i < |compact|
    requires Level(compact, i) == IndentAt(compact, i) && Level(compact, i + 1) == IndentAt(compact, i + 1)
    ensures Reference(compact, i) == Written(compact, i, IndentAt(compact, i), LexAt(compact, i)) + Reference(compact, i + 1)
  {
    hide Level, LevelAfter, Balanced, NonEmpty, OpenAt, Spaces, Blanks;
    IndentAtStep(compact, i);
    SpacesAreBlanks(Level(compact, i));
    SpacesAreBlanks(Level(compact, i + 1));
    if LexAt(compact, i) == Outside {
      LevelAtBracket(compact, i);
      MarkIsPiece(compact, i);
    }
  }

  lemma MarkIsPiece(compact: string, i: nat)
    requires Balanced(compact) && i < |compact| && LexAt(compact, i) == Outside
    ensures Mark(compact, i) == Piece(compact[i], Level(compact, i + 1) != Level(compact, i), Level(compact, i + 1))
  {
    hide Level, Balanced, NonEmpty, OpenAt, Spaces, Blanks;
    LevelAtBracket(compact, i);
    SpacesAreBlanks(Level(compact, i));
    SpacesAreBlanks(Level(compact, i + 1));
    var ch := compact[i];
    assert [ch, '\n'] == [ch] + "\n" && ",\n" == [',', '\n'] && ": " == [':', ' '] && "\n" == ['\n'];
  }

  lemma ReferenceEnd(compact: string)
    ensures Reference(compact, |compact|) == ""
  {
  }

  lemma {:induction false} IndentFromReference(compact: string, i: nat)
    requires Balanced(compact) && i <= |compact|
    ensures IndentFrom(compact, i, IndentAt(compact, i), LexAt(compact, i)) == Reference(compact, i)
    decreases |compact| - i
  {
    hide *;
    ReferenceEnd(compact);
    if i == |compact| {
      IndentFromStep(compact, i, IndentAt(compact, i), LexAt(compact, i));
    } else {
      IndentFromReference(compact, i + 1);
      IndentIsLevel(compact, i);
      IndentIsLevel(compact, i + 1);
      IndentAtStep(compact, i);
      ReferenceStep(compact, i);
      IndentFromStep(compact, i, IndentAt(compact, i), LexAt(compact, i));
    }
  }

  lemma {:induction false} SpacesAreTwicePerLevel(level: nat)
    ensures |Spaces(level)| == 2 * level && forall i | 0 <= i < |Spaces(level)| :: Spaces(level)[i] == ' '
  {
    if level > 0 {
      SpacesAreTwicePerLevel(level - 1);
    }
  }

  /**
   On balanced input: the output is the reference one, the level is the nesting level at
   every byte (so never negative) and ends at zero.
   */
  lemma IndentFollowsNesting(compact: string)
    requires Balanced(compact)
    ensures Indented(compact) == Reference(compact, 0)
    ensures forall k | 0 <= k <= |compact| :: IndentAt(compact, k) == Level(compact, k)
    ensures IndentAt(compact, |compact|) == 0
  {
    hide *;
    LevelOfNothing(compact);
    IndentedIs(compact);
    IndentFromReference(compact, 0);
    forall k | 0 <= k <= |compact| ensures IndentAt(compact, k) == Level(compact, k) {
      IndentIsLevel(compact, k);
    }
  }

  /** Brackets with no partner: one at either end of the text stands by itself, and the indent may fall below zero. */
  lemma UnbalancedEdges()
    ensures Indented("[") == "[" && Indented("]") == "]" && Indented("1]") == "1\n]" && Indented("[1") == "[\n  1"
  {
    assert IndentFrom("[", 1, 0, Outside) == "" && IndentFrom("]", 1, 0, Outside) == "";
    assert IndentFrom("1]", 2, -1, Outside) == "" && IndentFrom("1]", 1, 0, Outside) == "\n]";
    assert Spaces(1) == "  ";
    assert IndentFrom("[1", 2, 1, Outside) == "" && IndentFrom("[1", 1, 1, Outside) == "1";
  }
}
