/** `escape_special_chars`: nineteen whole-string replacements applied one
    after the other in the order of the table (a Python dictionary, so its
    insertion order), `&` first. */
module MarkdownEscape {
  import opened Text
  import Html

  /** The table of `escape_special_chars`, in insertion order. */
  const SpecialChars: Replacements := [
    ('&', "&amp;"), ('<', "&lt;"), ('>', "&gt;"), ('"', "&quot;"), ('\'', "&#39;"),
    ('`', "&#96;"), ('*', "&#42;"), ('_', "&#95;"), ('{', "&#123;"), ('}', "&#125;"),
    ('[', "&#91;"), (']', "&#93;"), ('(', "&#40;"), (')', "&#41;"), ('#', "&#35;"),
    ('+', "&#43;"), ('-', "&#45;"), ('.', "&#46;"), ('!', "&#33;")]

  /** What `escape_special_chars(s)` returns. */
  function Escaped(s: string): string
  {
    ApplyAll(SpecialChars, s)
  }

  /** `escape_special_chars(text)`: rebinds `text` to `text.replace(c, rep)`
      for each entry of the table in turn. */
  method EscapeSpecialChars(text: string) returns (r: string)
    ensures r == Escaped(text)
  {
    r := text;
    for i := 0 to |SpecialChars|
      invariant r == ApplyFirst(SpecialChars, i, text)
    {
      var (c, replacement) := SpecialChars[i];
      r := Replace(r, c, replacement);
    }
  }

  /** `c in special_chars`: the characters that have an entry in the table. */
  predicate IsSpecial(c: char)
  {
    exists i :: 0 <= i < |SpecialChars| && SpecialChars[i].0 == c
  }

  /** Reference definition of what the table order does to each character:
      the entities made before the `#` step have their `#` escaped again. */
  function EscapedChar(c: char): string
  {
    match c
    case '&' => "&amp;"
    case '<' => "&lt;"
    case '>' => "&gt;"
    case '"' => "&quot;"
    case '\'' => "&&#35;39;"
    case '`' => "&&#35;96;"
    case '*' => "&&#35;42;"
    case '_' => "&&#35;95;"
    case '{' => "&&#35;123;"
    case '}' => "&&#35;125;"
    case '[' => "&&#35;91;"
    case ']' => "&&#35;93;"
    case '(' => "&&#35;40;"
    case ')' => "&&#35;41;"
    case '#' => "&#35;"
    case '+' => "&#43;"
    case '-' => "&#45;"
    case '.' => "&#46;"
    case '!' => "&#33;"
    case _ => [c]
  }

  /** The characters entity texts are made of. */
  predicate EntityChar(x: char)
  {
    x == '&' || x == '#' || x == ';' || ('a' <= x <= 'z') || ('0' <= x <= '9')
  }

  /** Facts about the table that the per-character proofs use: the patterns
      are pairwise distinct special characters, apart from `&` and `#` none
      of them is an entity character, and every replacement text is made of
      entity characters. */
  lemma SpecialCharsTableFacts()
    ensures |SpecialChars| == 19 && SpecialChars[0] == ('&', "&amp;") && SpecialChars[14] == ('#', "&#35;")
    ensures forall j, k :: 0 <= j < k < |SpecialChars| ==> SpecialChars[j].0 != SpecialChars[k].0
    ensures forall k :: 0 <= k < |SpecialChars| ==> SpecialChars[k].0 in "&<>\"'`*_{}[]()#+-.!"
    ensures forall k :: 0 < k < |SpecialChars| && k != 14 ==> !EntityChar(SpecialChars[k].0)
    ensures forall k :: 0 <= k < |SpecialChars| ==> |SpecialChars[k].1| > 1
    ensures forall k, x :: 0 <= k < |SpecialChars| && x in SpecialChars[k].1 ==> EntityChar(x)
  {
    SpecialCharsDistinct();
    SpecialCharsPatterns();
    SpecialCharsTexts();
  }

  lemma SpecialCharsDistinct()
    ensures forall j, k :: 0 <= j < k < |SpecialChars| ==> SpecialChars[j].0 != SpecialChars[k].0
  {
  }

  lemma SpecialCharsPatterns()
    ensures |SpecialChars| == 19 && SpecialChars[0] == ('&', "&amp;") && SpecialChars[14] == ('#', "&#35;")
    ensures forall k :: 0 <= k < |SpecialChars| ==> SpecialChars[k].0 in "&<>\"'`*_{}[]()#+-.!"
    ensures forall k :: 0 < k < |SpecialChars| && k != 14 ==> !EntityChar(SpecialChars[k].0)
  {
  }

  lemma SpecialCharsTexts()
    ensures forall k :: 0 <= k < |SpecialChars| ==> |SpecialChars[k].1| > 1
    ensures forall k, x :: 0 <= k < |SpecialChars| && x in SpecialChars[k].1 ==> EntityChar(x)
  {
  }

  /** An entry before the `#` step: its replacement text then has its `#`
      escaped, and nothing else touches it. */
  lemma EscapeKeyBeforeHash(i: nat)
    requires i < 14
    ensures ApplyAll(SpecialChars, [SpecialChars[i].0]) == Replace(SpecialChars[i].1, '#', "&#35;")
  {
    var t := SpecialChars;
    var (c, rep) := t[i];
    SpecialCharsTableFacts();
    ApplyFirstAtKey(t, i, c);
    ApplyFirstUntouched(t, i + 1, 14, [c]);
    var u := Replace(rep, '#', "&#35;");
    forall x | x in u ensures EntityChar(x) {
      ReplaceMembers(rep, '#', "&#35;", x);
    }
    ApplyFirstUntouched(t, 15, 19, [c]);
  }

  /** An entry from the `#` step on: its replacement text is final. */
  lemma EscapeKeyFromHash(i: nat)
    requires 14 <= i < 19
    ensures ApplyAll(SpecialChars, [SpecialChars[i].0]) == SpecialChars[i].1
  {
    var t := SpecialChars;
    SpecialCharsTableFacts();
    ApplyFirstAtKey(t, i, t[i].0);
    ApplyFirstUntouched(t, i + 1, 19, [t[i].0]);
  }

  /** A decimal entity made before the `#` step, once its `#` is escaped. */
  lemma HashEscapedEntity(digits: string)
    requires '#' !in digits
    ensures Replace("&#" + digits, '#', "&#35;") == "&&#35;" + digits
  {
    var e := "&#" + digits;
    assert e[0] == '&' && e[1..][0] == '#' && e[1..][1..] == digits;
    ReplaceIdentity(digits, '#', "&#35;");
  }

  /** `&`, `<`, `>` and `"`: entities without `#`, untouched by later steps. */
  lemma EscapeMarkup(c: char)
    requires c == '&' || c == '<' || c == '>' || c == '"'
    ensures ApplyAll(SpecialChars, [c]) == EscapedChar(c)
  {
    if c == '&' {
      assert SpecialChars[0] == (c, "&amp;");
      EscapeKeyBeforeHash(0);
      ReplaceIdentity("&amp;", '#', "&#35;");
    } else if c == '<' {
      assert SpecialChars[1] == (c, "&lt;");
      EscapeKeyBeforeHash(1);
      ReplaceIdentity("&lt;", '#', "&#35;");
    } else if c == '>' {
      assert SpecialChars[2] == (c, "&gt;");
      EscapeKeyBeforeHash(2);
      ReplaceIdentity("&gt;", '#', "&#35;");
    } else if c == '"' {
      assert SpecialChars[3] == (c, "&quot;");
      EscapeKeyBeforeHash(3);
      ReplaceIdentity("&quot;", '#', "&#35;");
    }
  }

  /** Entries 4 to 13 spelled as `&#` followed by their digits. */
  lemma EntitySpellings()
    ensures SpecialChars[4] == ('\'', "&#" + "39;")
    ensures SpecialChars[5] == ('`', "&#" + "96;")
    ensures SpecialChars[6] == ('*', "&#" + "42;")
    ensures SpecialChars[7] == ('_', "&#" + "95;")
    ensures SpecialChars[8] == ('{', "&#" + "123;")
    ensures SpecialChars[9] == ('}', "&#" + "125;")
    ensures SpecialChars[10] == ('[', "&#" + "91;")
    ensures SpecialChars[11] == (']', "&#" + "93;")
    ensures SpecialChars[12] == ('(', "&#" + "40;")
    ensures SpecialChars[13] == (')', "&#" + "41;")
  {
    assert "&#" + "39;" == "&#39;";
    assert "&#" + "96;" == "&#96;";
    assert "&#" + "42;" == "&#42;";
    assert "&#" + "95;" == "&#95;";
    assert "&#" + "123;" == "&#123;";
    assert "&#" + "125;" == "&#125;";
    assert "&#" + "91;" == "&#91;";
    assert "&#" + "93;" == "&#93;";
    assert "&#" + "40;" == "&#40;";
    assert "&#" + "41;" == "&#41;";
  }

  /** The reference renderings of entries 4 to 13: `&&#35;` and the same
      digits. */
  lemma DoubleEscapedSpellings()
    ensures EscapedChar('\'') == "&&#35;" + "39;"
    ensures EscapedChar('`') == "&&#35;" + "96;"
    ensures EscapedChar('*') == "&&#35;" + "42;"
    ensures EscapedChar('_') == "&&#35;" + "95;"
    ensures EscapedChar('{') == "&&#35;" + "123;"
    ensures EscapedChar('}') == "&&#35;" + "125;"
    ensures EscapedChar('[') == "&&#35;" + "91;"
    ensures EscapedChar(']') == "&&#35;" + "93;"
    ensures EscapedChar('(') == "&&#35;" + "40;"
    ensures EscapedChar(')') == "&&#35;" + "41;"
  {
  }

  /** An entry among 4 to 13 is a decimal entity written before the `#`
      step, which then escapes its `#`. */
  lemma EscapeEntityKey(i: nat, digits: string)
    requires 4 <= i < 14 && SpecialChars[i].1 == "&#" + digits && '#' !in digits
    ensures ApplyAll(SpecialChars, [SpecialChars[i].0]) == "&&#35;" + digits
  {
    EscapeKeyBeforeHash(i);
    HashEscapedEntity(digits);
  }

  /** The characters whose entities get their `#` escaped again. */
  lemma EscapeEntity(c: char)
    requires c == '\'' || c == '`' || c == '*' || c == '_' || c == '{' || c == '}' || c == '[' || c == ']' || c == '(' || c == ')'
    ensures ApplyAll(SpecialChars, [c]) == EscapedChar(c)
  {
    EntitySpellings();
    DoubleEscapedSpellings();
    if c == '\'' {
      EscapeEntityKey(4, "39;");
    } else if c == '`' {
      EscapeEntityKey(5, "96;");
    } else if c == '*' {
      EscapeEntityKey(6, "42;");
    } else if c == '_' {
      EscapeEntityKey(7, "95;");
    } else if c == '{' {
      EscapeEntityKey(8, "123;");
    } else if c == '}' {
      EscapeEntityKey(9, "125;");
    } else if c == '[' {
      EscapeEntityKey(10, "91;");
    } else if c == ']' {
      EscapeEntityKey(11, "93;");
    } else if c == '(' {
      EscapeEntityKey(12, "40;");
    } else if c == ')' {
      EscapeEntityKey(13, "41;");
    }
  }

  /** `#`, `+`, `-`, `.` and `!`: from the `#` step on, entities are final. */
  lemma EscapeFromHash(c: char)
    requires c == '#' || c == '+' || c == '-' || c == '.' || c == '!'
    ensures ApplyAll(SpecialChars, [c]) == EscapedChar(c)
  {
    if c == '#' {
      assert SpecialChars[14] == (c, "&#35;");
      EscapeKeyFromHash(14);
    } else if c == '+' {
      assert SpecialChars[15] == (c, "&#43;");
      EscapeKeyFromHash(15);
    } else if c == '-' {
      assert SpecialChars[16] == (c, "&#45;");
      EscapeKeyFromHash(16);
    } else if c == '.' {
      assert SpecialChars[17] == (c, "&#46;");
      EscapeKeyFromHash(17);
    } else if c == '!' {
      assert SpecialChars[18] == (c, "&#33;");
      EscapeKeyFromHash(18);
    }
  }

  /** The nineteen steps on a one-character string give the reference rendering. */
  lemma EscapeOneChar(c: char)
    ensures ApplyAll(SpecialChars, [c]) == EscapedChar(c)
  {
    if c == '&' || c == '<' || c == '>' || c == '"' {
      EscapeMarkup(c);
    } else if c == '\'' || c == '`' || c == '*' || c == '_' || c == '{' || c == '}' || c == '[' || c == ']' || c == '(' || c == ')' {
      EscapeEntity(c);
    } else if c == '#' || c == '+' || c == '-' || c == '.' || c == '!' {
      EscapeFromHash(c);
    } else {
      SpecialCharsTableFacts();
      ApplyFirstUntouched(SpecialChars, 0, |SpecialChars|, [c]);
    }
  }

  // ---------------------------------------------------------------------
  // What the table order does

  /** `escape_special_chars` rewrites each character on its own, by the
      reference rendering. */
  lemma EscapedIsCharwise(s: string)
    ensures Escaped(s) == FlatMap(EscapedChar, s)
  {
    forall c | true ensures ApplyAll(SpecialChars, [c]) == EscapedChar(c) {
      EscapeOneChar(c);
    }
    ApplyAllIsFlatMap(SpecialChars, EscapedChar, s);
  }

  /** The special characters are exactly the ones listed in the table. */
  lemma IsSpecialListed(c: char)
    ensures IsSpecial(c) <==> c in "&<>\"'`*_{}[]()#+-.!"
  {
    SpecialCharsPatterns();
    if c in "&<>\"'`*_{}[]()#+-.!" {
      var i :| 0 <= i < 19 && "&<>\"'`*_{}[]()#+-.!"[i] == c;
      assert SpecialChars[i].0 == c;
    }
  }

  /** Characters outside the table pass through as they are; special ones
      become longer. */
  lemma EscapedCharLength(c: char)
    ensures !IsSpecial(c) ==> EscapedChar(c) == [c]
    ensures IsSpecial(c) ==> |EscapedChar(c)| > 1
  {
    IsSpecialListed(c);
  }

  /** A string comes back unchanged exactly when it holds no special
      character; in particular the empty string maps to itself. */
  lemma EscapedUnchanged(s: string)
    ensures Escaped(s) == s <==> forall i :: 0 <= i < |s| ==> !IsSpecial(s[i])
    ensures Escaped([]) == []
  {
    ApplyAllEmpty(SpecialChars);
    EscapedIsCharwise(s);
    forall c | true ensures |EscapedChar(c)| >= 1 && (|EscapedChar(c)| == 1 <==> !IsSpecial(c)) {
      EscapedCharLength(c);
    }
    FlatMapLength(EscapedChar, s);
    if forall i :: 0 <= i < |s| ==> !IsSpecial(s[i]) {
      forall i | 0 <= i < |s| ensures EscapedChar(s[i]) == [s[i]] {
        EscapedCharLength(s[i]);
      }
      FlatMapIdentity(EscapedChar, s);
    }
  }

  /** Every step replaces one character by a longer text, so the output is
      never shorter than the input. */
  lemma EscapedLength(s: string)
    ensures |Escaped(s)| >= |s|
  {
    SpecialCharsTexts();
    ApplyFirstGrows(SpecialChars, |SpecialChars|, s);
  }

  /** Apart from `&` and `#`, no special character survives: each is removed
      at its own step and no later replacement text brings it back. */
  lemma EscapedNoRawSpecial(s: string, x: char)
    requires IsSpecial(x) && x != '&' && x != '#'
    ensures x !in Escaped(s)
  {
    SpecialCharsTableFacts();
    var i :| 0 <= i < |SpecialChars| && SpecialChars[i].0 == x;
    ApplyFirstRemoves(SpecialChars, i, |SpecialChars|, s);
  }

  /** The rendering of a one-character string. */
  lemma EscapedOne(c: char)
    ensures Escaped([c]) == EscapedChar(c)
  {
    EscapedIsCharwise([c]);
    assert [c][1..] == [];
  }

  /** The entities made before the `#` step are escaped twice, those made
      after it once, and a `&` that a later step introduces stays raw. */
  lemma EscapedExamples()
    ensures Escaped("'") == "&&#35;39;"
    ensures Escaped("`") == "&&#35;96;"
    ensures Escaped("+") == "&#43;"
  {
    EscapedOne('\'');
    EscapedOne('`');
    EscapedOne('+');
  }

  /** Escaping twice is not escaping once. */
  lemma EscapedNotIdempotent()
    ensures Escaped(Escaped("+")) == "&amp;&#35;43;"
    ensures Escaped(Escaped("+")) != Escaped("+")
  {
    EscapedExamples();
    EscapedIsCharwise("&#43;");
    var f := EscapedChar;
    assert FlatMap(f, ";") == ";" by {
      assert ";"[1..] == [];
    }
    assert FlatMap(f, "3;") == "3;" by {
      assert "3;"[1..] == ";";
    }
    assert FlatMap(f, "43;") == "43;" by {
      assert "43;"[1..] == "3;";
    }
    assert FlatMap(f, "#43;") == "&#35;43;" by {
      assert "#43;"[1..] == "43;";
    }
    assert FlatMap(f, "&#43;") == "&amp;&#35;43;" by {
      assert "&#43;"[1..] == "#43;";
    }
  }

  // ---------------------------------------------------------------------
  // Reading the output back

  /** Entry `i` of the table is the character reference at position
      `ReferenceIndex(i)` of `Html.References` (which has `&#x27;` as an
      extra fifth entry). */
  function ReferenceIndex(i: nat): nat
  {
    if i < 4 then i else i + 1
  }

  lemma ReferencesCoverTable()
    ensures forall i :: 0 <= i < |SpecialChars| ==>
      ReferenceIndex(i) < |Html.References| &&
      Html.References[ReferenceIndex(i)] == (SpecialChars[i].1, SpecialChars[i].0)
  {
  }

  /** `&&#35;39;` and `&#39;` split before their digits. */
  lemma QuoteSpelling()
    ensures "&&#35;" + "39;" == "&&#35;39;"
    ensures "&#" + "39;" == "&#39;"
  {
  }

  /** As written, a reader of the output does not see the input: `'` is
      read back as the five characters `&#39;`. */
  lemma EscapedReadsBackWrongly()
    ensures Html.Unescape(Escaped("'")) == "&#39;"
    ensures Html.Unescape(Escaped("'")) != "'"
  {
    EscapedExamples();
    QuoteSpelling();
    Html.UnescapeDoubleEscaped("39;");
  }

  /** The evident intent: the table with its `#` entry moved up to run right
      after `&`, so that no entity is escaped twice. */
  const FixedChars: Replacements :=
    [SpecialChars[0], SpecialChars[14]] + SpecialChars[1..14] + SpecialChars[15..]

  /** `escape_special_chars` with the corrected order. */
  function FixedEscaped(s: string): string
  {
    ApplyAll(FixedChars, s)
  }

  /** Position in `FixedChars` of entry `i` of `SpecialChars`. */
  function FixedPosition(i: nat): nat
  {
    if i == 0 then 0 else if i == 14 then 1 else if i < 14 then i + 1 else i
  }

  /** Where each entry of the table went. */
  lemma FixedCharsLayout()
    ensures |FixedChars| == 19
    ensures FixedChars[0] == SpecialChars[0] && FixedChars[1] == SpecialChars[14]
    ensures forall k :: 2 <= k <= 14 ==> FixedChars[k] == SpecialChars[k - 1]
    ensures forall k :: 15 <= k < 19 ==> FixedChars[k] == SpecialChars[k]
  {
  }

  /** The table facts, carried over to the corrected order. */
  lemma FixedCharsFacts()
    ensures |FixedChars| == 19
    ensures forall i :: 0 <= i < 19 ==> FixedPosition(i) < 19 && FixedChars[FixedPosition(i)] == SpecialChars[i]
    ensures forall a, b :: 0 <= a < b < 19 ==> FixedChars[a].0 != FixedChars[b].0
    ensures forall k :: 2 <= k < 19 ==> !EntityChar(FixedChars[k].0)
    ensures forall k, x :: 0 <= k < 19 && x in FixedChars[k].1 ==> EntityChar(x)
  {
    SpecialCharsTableFacts();
    FixedCharsLayout();
  }

  /** The `&` entry leaves no `#` behind for the step after it. */
  lemma AmpersandTextHasNoHash()
    ensures FixedChars[1].0 !in FixedChars[0].1
  {
  }

  /** Entry `i` is written as its own text once the corrected steps are
      done: the steps before it do not match it, the steps after it match
      nothing in its text. */
  lemma FixedOneKey(i: nat)
    requires i < |SpecialChars|
    ensures ApplyAll(FixedChars, [SpecialChars[i].0]) == SpecialChars[i].1
  {
    var f := FixedChars;
    var c := SpecialChars[i].0;
    FixedCharsFacts();
    var j := FixedPosition(i);
    ApplyFirstAtKey(f, j, c);
    if j == 0 {
      AmpersandTextHasNoHash();
    }
    ApplyFirstUntouched(f, j + 1, 19, [c]);
  }

  /** A character outside the table is left alone by the corrected steps. */
  lemma FixedOther(c: char)
    requires !IsSpecial(c)
    ensures ApplyAll(FixedChars, [c]) == [c]
  {
    var f := FixedChars;
    FixedCharsFacts();
    forall k | 0 <= k < 19 ensures f[k].0 != c {
      assert f[k] == SpecialChars[if k == 0 then 0 else if k == 1 then 14 else if k <= 14 then k - 1 else k];
    }
    ApplyFirstUntouched(f, 0, 19, [c]);
  }

  /** With the corrected order each character becomes its own table entry,
      once: the dictionary read as a per-character map. */
  lemma FixedOneChar(c: char)
    ensures ApplyAll(FixedChars, [c]) == Lookup(SpecialChars, c)
  {
    SpecialCharsTableFacts();
    if IsSpecial(c) {
      var i :| 0 <= i < 19 && SpecialChars[i].0 == c;
      LookupAt(SpecialChars, i);
      FixedOneKey(i);
    } else {
      LookupMissing(SpecialChars, c);
      FixedOther(c);
    }
  }

  /** The corrected escaper is the per-character table lookup. */
  lemma FixedIsLookup(s: string)
    ensures FixedEscaped(s) == FlatMap(c => Lookup(SpecialChars, c), s)
  {
    forall c | true ensures ApplyAll(FixedChars, [c]) == Lookup(SpecialChars, c) {
      FixedOneChar(c);
    }
    ApplyAllIsFlatMap(FixedChars, c => Lookup(SpecialChars, c), s);
  }

  /** Each table entry is read back as its own character. */
  lemma LookupReadsBack(c: char, rest: string)
    ensures Html.Unescape(Lookup(SpecialChars, c) + rest) == [c] + Html.Unescape(rest)
  {
    SpecialCharsTableFacts();
    if IsSpecial(c) {
      var i :| 0 <= i < 19 && SpecialChars[i].0 == c;
      LookupAt(SpecialChars, i);
      ReferencesCoverTable();
      Html.UnescapeReference(ReferenceIndex(i), rest);
    } else {
      LookupMissing(SpecialChars, c);
      Html.UnescapePlain(c, rest);
    }
  }

  /** Round trip of the corrected escaper: a reader of the output sees the
      input. */
  lemma FixedReadsBack(s: string)
    ensures Html.Unescape(FixedEscaped(s)) == s
  {
    forall c, rest ensures Html.Unescape(Lookup(SpecialChars, c) + rest) == [c] + Html.Unescape(rest) {
      LookupReadsBack(c, rest);
    }
    FixedIsLookup(s);
    Html.UnescapeFlatMap(c => Lookup(SpecialChars, c), s);
  }

  /** The corrected escaper still leaves no raw special character other than
      `&` and `#`. */
  lemma FixedNoRawSpecial(s: string, x: char)
    requires IsSpecial(x) && x != '&' && x != '#'
    ensures x !in FixedEscaped(s)
  {
    SpecialCharsTableFacts();
    FixedCharsFacts();
    var i :| 0 <= i < 19 && SpecialChars[i].0 == x;
    ApplyFirstRemoves(FixedChars, FixedPosition(i), 19, s);
  }
}
