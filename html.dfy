/** Python's `html.escape(s)` (with its default `quote=True`), and a reader
    of the character references that the generator's two escapers emit, as
    an HTML renderer decodes them. */
module Html {
  import opened Wrappers
  import opened Text

  /** The five replacements `html.escape` performs, in its order: `&` first,
      so that the `&` of the later entities is not escaped again. */
  const EscapeTable: Replacements :=
    [('&', "&amp;"), ('<', "&lt;"), ('>', "&gt;"), ('"', "&quot;"), ('\'', "&#x27;")]

  /** `html.escape(s)`. */
  function Escape(s: string): string
  {
    ApplyAll(EscapeTable, s)
  }

  /** Reference definition: the text each character is rendered as. */
  function EscapeChar(c: char): string
  {
    match c
    case '&' => "&amp;"
    case '<' => "&lt;"
    case '>' => "&gt;"
    case '"' => "&quot;"
    case '\'' => "&#x27;"
    case _ => [c]
  }

  /** The characters `html.escape` rewrites. */
  predicate IsSpecial(c: char)
  {
    c == '&' || c == '<' || c == '>' || c == '"' || c == '\''
  }

  /** `html.escape` on one character is the reference rendering. */
  lemma EscapeOneChar(c: char)
    ensures ApplyAll(EscapeTable, [c]) == EscapeChar(c)
  {
    var t := EscapeTable;
    if c == '&' {
      ApplyFirstAtKey(t, 0, c);
      ApplyFirstUntouched(t, 1, 5, [c]);
    } else if c == '<' {
      ApplyFirstAtKey(t, 1, c);
      ApplyFirstUntouched(t, 2, 5, [c]);
    } else if c == '>' {
      ApplyFirstAtKey(t, 2, c);
      ApplyFirstUntouched(t, 3, 5, [c]);
    } else if c == '"' {
      ApplyFirstAtKey(t, 3, c);
      ApplyFirstUntouched(t, 4, 5, [c]);
    } else if c == '\'' {
      ApplyFirstAtKey(t, 4, c);
    } else {
      ApplyFirstUntouched(t, 0, |t|, [c]);
    }
  }

  /** `html.escape` renders each character on its own, by the reference table. */
  lemma EscapeIsCharwise(s: string)
    ensures Escape(s) == FlatMap(EscapeChar, s)
  {
    forall c | true ensures ApplyAll(EscapeTable, [c]) == EscapeChar(c) {
      EscapeOneChar(c);
    }
    ApplyAllIsFlatMap(EscapeTable, EscapeChar, s);
  }

  /** The escaped text holds no raw `<`, `>`, `"` or `'`. */
  lemma EscapeRemovesSpecials(s: string, x: char)
    requires x == '<' || x == '>' || x == '"' || x == '\''
    ensures x !in Escape(s)
  {
    EscapeIsCharwise(s);
    FlatMapMembers(EscapeChar, s, x);
  }

  /** A character that is not escaped and that no entity is spelled with
      (so not `#`, `;`, a lower-case letter or a digit) is in the escaped
      text exactly when it is in the original. */
  lemma EscapeKeeps(s: string, x: char)
    requires !IsSpecial(x) && x != '#' && x != ';' && !('a' <= x <= 'z') && !('0' <= x <= '9')
    ensures x in Escape(s) <==> x in s
  {
    EscapeIsCharwise(s);
    FlatMapMembers(EscapeChar, s, x);
    forall i | 0 <= i < |s| ensures x in EscapeChar(s[i]) <==> x == s[i] {
      if !IsSpecial(s[i]) {
        assert EscapeChar(s[i]) == [s[i]];
      }
    }
  }

  /** `html.escape` leaves a string alone exactly when it holds none of the
      five special characters. */
  lemma EscapeUnchanged(s: string)
    ensures Escape(s) == s <==> forall i :: 0 <= i < |s| ==> !IsSpecial(s[i])
  {
    EscapeIsCharwise(s);
    FlatMapLength(EscapeChar, s);
    if forall i :: 0 <= i < |s| ==> !IsSpecial(s[i]) {
      FlatMapIdentity(EscapeChar, s);
    }
  }

  // ---------------------------------------------------------------------
  // Reading character references back

  /** The character references the generator's escapers emit, with the
      character each stands for. `&#x27;` comes from `html.escape`, the
      decimal ones from the Markdown escaper. */
  const References: seq<(string, char)> := [
    ("&amp;", '&'), ("&lt;", '<'), ("&gt;", '>'), ("&quot;", '"'), ("&#x27;", '\''),
    ("&#39;", '\''), ("&#96;", '`'), ("&#42;", '*'), ("&#95;", '_'), ("&#123;", '{'),
    ("&#125;", '}'), ("&#91;", '['), ("&#93;", ']'), ("&#40;", '('), ("&#41;", ')'),
    ("&#35;", '#'), ("&#43;", '+'), ("&#45;", '-'), ("&#46;", '.'), ("&#33;", '!')]

  /** The first reference of `refs` that `s` starts with. */
  function MatchReference(s: string, refs: seq<(string, char)>): (m: Option<(string, char)>)
    ensures m.Some? ==> m.value in refs && m.value.0 != [] && m.value.0 <= s
    ensures m.None? ==> forall k :: 0 <= k < |refs| ==> refs[k].0 == [] || !(refs[k].0 <= s)
  {
    if refs == [] then None
    else if refs[0].0 != [] && refs[0].0 <= s then Some(refs[0])
    else MatchReference(s, refs[1..])
  }

  /** What a reader of `s` sees: each reference of `References` stands for
      its character, every other character for itself. */
  function Unescape(s: string): string
    decreases |s|
  {
    if s == [] then []
    else match MatchReference(s, References)
      case Some(r) => [r.1] + Unescape(s[|r.0|..])
      case None => [s[0]] + Unescape(s[1..])
  }

  /** A reference: `&`, then a name without `;`, then `;`. */
  predicate WellFormedReference(e: string)
  {
    |e| > 1 && e[0] == '&' && e[|e| - 1] == ';' && forall i :: 0 <= i < |e| - 1 ==> e[i] != ';'
  }

  /** Every entry is well formed and no two entries are spelled alike. */
  lemma ReferencesWellFormed()
    ensures forall k :: 0 <= k < |References| ==> WellFormedReference(References[k].0)
    ensures forall j, k :: 0 <= j < k < |References| ==> References[j].0 != References[k].0
    ensures forall k :: 0 <= k < |References| ==> References[k].0[1] != '&'
  {
  }

  /** No well-formed reference is a proper prefix of another. */
  lemma PrefixFree(e1: string, e2: string, s: string)
    requires WellFormedReference(e1) && WellFormedReference(e2)
    requires e1 <= s && e2 <= s
    ensures e1 == e2
  {
  }

  /** A string that starts with entry `k` is read as that entry, provided no
      earlier entry is spelled the same. */
  lemma {:induction false} MatchAt(s: string, refs: seq<(string, char)>, k: nat)
    requires k < |refs| && refs[k].0 <= s
    requires forall j :: 0 <= j < |refs| ==> WellFormedReference(refs[j].0)
    requires forall j :: 0 <= j < k ==> refs[j].0 != refs[k].0
    ensures MatchReference(s, refs) == Some(refs[k])
  {
    if refs[0].0 <= s {
      PrefixFree(refs[0].0, refs[k].0, s);
    } else {
      MatchAt(s, refs[1..], k - 1);
    }
  }

  /** Reading entry `k` of `References` yields its character. */
  lemma UnescapeReference(k: nat, rest: string)
    requires k < |References|
    ensures Unescape(References[k].0 + rest) == [References[k].1] + Unescape(rest)
  {
    var e := References[k].0;
    ReferencesWellFormed();
    MatchAt(e + rest, References, k);
    assert (e + rest)[|e|..] == rest;
  }

  /** A character other than `&` is read as itself. */
  lemma UnescapePlain(c: char, rest: string)
    requires c != '&'
    ensures Unescape([c] + rest) == [c] + Unescape(rest)
  {
    ReferencesWellFormed();
    var m := MatchReference([c] + rest, References);
    if m.Some? {
      assert false;
    }
    assert ([c] + rest)[1..] == rest;
  }

  /** An `&` followed by another `&` starts no reference, so it is read as
      itself. */
  lemma UnescapeAmpersand(rest: string)
    requires rest != [] && rest[0] == '&'
    ensures Unescape(['&'] + rest) == ['&'] + Unescape(rest)
  {
    ReferencesWellFormed();
    var s := ['&'] + rest;
    var m := MatchReference(s, References);
    if m.Some? {
      assert false;
    }
    assert s[1..] == rest;
  }

  /** A per-character rendering `f` that a reader reads back character by
      character is undone by `Unescape`. */
  lemma {:induction false} UnescapeFlatMap(f: char -> string, s: string)
    requires forall c, rest :: Unescape(f(c) + rest) == [c] + Unescape(rest)
    ensures Unescape(FlatMap(f, s)) == s
  {
    if s != [] {
      UnescapeFlatMap(f, s[1..]);
      assert Unescape(f(s[0]) + FlatMap(f, s[1..])) == [s[0]] + Unescape(FlatMap(f, s[1..]));
      assert [s[0]] + s[1..] == s;
    }
  }

  /** Each rendering of `html.escape` reads back as its character. */
  lemma EscapeCharReadsBack(c: char, rest: string)
    ensures Unescape(EscapeChar(c) + rest) == [c] + Unescape(rest)
  {
    if c == '&' {
      assert References[0] == ("&amp;", '&');
      UnescapeReference(0, rest);
    } else if c == '<' {
      assert References[1] == ("&lt;", '<');
      UnescapeReference(1, rest);
    } else if c == '>' {
      assert References[2] == ("&gt;", '>');
      UnescapeReference(2, rest);
    } else if c == '"' {
      assert References[3] == ("&quot;", '"');
      UnescapeReference(3, rest);
    } else if c == '\'' {
      assert References[4] == ("&#x27;", '\'');
      UnescapeReference(4, rest);
    } else {
      UnescapePlain(c, rest);
    }
  }

  /** Round trip: a reader of the escaped text sees the original text. */
  lemma UnescapeEscape(s: string)
    ensures Unescape(Escape(s)) == s
  {
    forall c, rest ensures Unescape(EscapeChar(c) + rest) == [c] + Unescape(rest) {
      EscapeCharReadsBack(c, rest);
    }
    EscapeIsCharwise(s);
    UnescapeFlatMap(EscapeChar, s);
  }

  /** Text without `&` is read as itself. */
  lemma {:induction false} UnescapeNoAmpersand(s: string)
    requires forall i :: 0 <= i < |s| ==> s[i] != '&'
    ensures Unescape(s) == s
  {
    if s != [] {
      UnescapeNoAmpersand(s[1..]);
      UnescapePlain(s[0], s[1..]);
      assert [s[0]] + s[1..] == s;
    }
  }

  /** The two spellings of `&&#35;` followed by `digits`, and of `&#`. */
  lemma DoubleEscapedSpelling(digits: string)
    ensures ['&'] + ("&#35;" + digits) == "&&#35;" + digits
    ensures ['&'] + (['#'] + digits) == "&#" + digits
  {
  }

  /** `&#35;` is read as `#`. */
  lemma UnescapeHash(rest: string)
    ensures Unescape("&#35;" + rest) == ['#'] + Unescape(rest)
  {
    assert References[15] == ("&#35;", '#');
    UnescapeReference(15, rest);
  }

  /** The `&` in front of `&#35;` is read as itself. */
  lemma UnescapeAmpersandHash(rest: string)
    ensures Unescape("&&#35;" + rest) == ['&'] + Unescape("&#35;" + rest)
  {
    UnescapeAmpersand("&#35;" + rest);
    DoubleEscapedSpelling(rest);
  }

  /** A reader of `&&#35;` followed by text without `&` sees `&#` and that
      text: the `&#35;` is read as `#`, so the outer `&` becomes the start
      of a new reference. */
  lemma UnescapeDoubleEscaped(digits: string)
    requires forall i :: 0 <= i < |digits| ==> digits[i] != '&'
    ensures Unescape("&&#35;" + digits) == "&#" + digits
  {
    UnescapeNoAmpersand(digits);
    UnescapeHash(digits);
    UnescapeAmpersandHash(digits);
    DoubleEscapedSpelling(digits);
  }
}
