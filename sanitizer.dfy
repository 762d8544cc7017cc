/**
 * Identifier sanitising and label escaping (graphEditorModule.js `sanitizeId`, `escapeLabel`).
 */
module Sanitizer {

  import opened JsText

  /** `s.replace(/\s+/g, '_')`: every maximal run of whitespace becomes one underscore. */
  function CollapseSpaces(s: string): (r: string)
    ensures NoSpace(r)
    ensures s != [] ==> r != []
    decreases |s|
  {
    if s == [] then []
    else if IsSpace(s[0]) then
      var rest := TrimStart(s);
      assert |rest| < |s|;
      "_" + CollapseSpaces(rest)
    else [s[0]] + CollapseSpaces(s[1..])
  }

  lemma {:induction false} CollapseNoSpace(s: string)
    requires NoSpace(s)
    ensures CollapseSpaces(s) == s
  {
    if s != [] {
      CollapseNoSpace(s[1..]);
      assert [s[0]] + s[1..] == s;
    }
  }

  lemma {:induction false} TrimStartPadded(pad: string, s: string)
    requires AllSpace(pad)
    requires s == [] || !IsSpace(s[0])
    ensures TrimStart(pad + s) == s
  {
    if pad == [] {
      assert pad + s == s;
    } else {
      assert (pad + s)[1..] == pad[1..] + s;
      TrimStartPadded(pad[1..], s);
    }
  }

  /**
   * A run of whitespace between a space-free segment and a text that does not start with
   * whitespace is replaced by exactly one underscore, and the segment is kept as it is.
   */
  lemma {:induction false} CollapseRun(a: string, run: string, b: string)
    requires NoSpace(a)
    requires |run| > 0 && AllSpace(run)
    requires b == [] || !IsSpace(b[0])
    ensures CollapseSpaces(a + run + b) == a + "_" + CollapseSpaces(b)
    decreases |a|
  {
    if a == [] {
      assert a + run + b == run + b;
      TrimStartPadded(run, b);
    } else {
      assert (a + run + b)[1..] == a[1..] + run + b;
      CollapseRun(a[1..], run, b);
      assert [a[0]] + a[1..] == a;
    }
  }

  /**
   * `sanitizeId`: trims; an empty result becomes the fallback `node`; otherwise every run of
   * whitespace becomes one underscore.
   */
  function SanitizeId(id: string): (r: string)
    ensures r != [] && NoSpace(r)
    ensures Trim(id) == [] ==> r == "node"
  {
    var trimmed := Trim(id);
    if trimmed == [] then "node" else CollapseSpaces(trimmed)
  }

  /** A string without whitespace, other than the empty one, is left as it is. */
  lemma {:induction false} SanitizeSpaceFree(id: string)
    requires id != [] && NoSpace(id)
    ensures SanitizeId(id) == id
  {
    TrimOfTrimmed(id);
    CollapseNoSpace(id);
  }

  /** Identifiers matched by `[A-Za-z0-9_]+` are already sanitised. */
  lemma SanitizeWord(id: string)
    requires IsWord(id)
    ensures SanitizeId(id) == id
  {
    SanitizeSpaceFree(id);
  }

  /** Sanitising twice is sanitising once. */
  lemma {:induction false} SanitizeIdempotent(id: string)
    ensures SanitizeId(SanitizeId(id)) == SanitizeId(id)
  {
    SanitizeSpaceFree(SanitizeId(id));
  }

  // ---------------------------------------------------------------- label escaping

  /** `s.replace(/c/g, rep)` for a single character `c`. */
  function ReplaceChar(s: string, c: char, rep: string): string
  {
    if s == [] then [] else (if s[0] == c then rep else [s[0]]) + ReplaceChar(s[1..], c, rep)
  }

  lemma {:induction false} ReplaceCharCons(x: char, s: string, c: char, rep: string)
    ensures ReplaceChar([x] + s, c, rep) == (if x == c then rep else [x]) + ReplaceChar(s, c, rep)
  {
    assert ([x] + s)[1..] == s;
  }

  lemma {:induction false} ReplaceCharAppend(a: string, b: string, c: char, rep: string)
    ensures ReplaceChar(a + b, c, rep) == ReplaceChar(a, c, rep) + ReplaceChar(b, c, rep)
  {
    if a == [] {
      assert a + b == b;
    } else {
      assert (a + b)[1..] == a[1..] + b;
      ReplaceCharAppend(a[1..], b, c, rep);
    }
  }

  lemma {:induction false} ReplaceCharAbsent(s: string, c: char, rep: string)
    requires c !in s
    ensures ReplaceChar(s, c, rep) == s
  {
    if s != [] {
      ReplaceCharAbsent(s[1..], c, rep);
      assert [s[0]] + s[1..] == s;
    }
  }

  predicate BracketFree(s: string) {
    '[' !in s && ']' !in s
  }

  /** `escapeLabel`: a backslash before every `]`, then before every `[`. */
  function EscapeLabel(text: string): string
  {
    ReplaceChar(ReplaceChar(text, ']', "\\]"), '[', "\\[")
  }

  /** What escaping makes of one character. */
  function EscapeChar(c: char): string
  {
    if c == '[' || c == ']' then ['\\', c] else [c]
  }

  lemma {:induction false} EscapeLabelCons(c: char, s: string)
    ensures EscapeLabel([c] + s) == EscapeChar(c) + EscapeLabel(s)
  {
    ReplaceCharCons(c, s, ']', "\\]");
    var inner := ReplaceChar(s, ']', "\\]");
    var head := if c == ']' then "\\]" else [c];
    ReplaceCharAppend(head, inner, '[', "\\[");
    if c == ']' {
      assert head == ['\\'] + [']'];
      ReplaceCharCons('\\', [']'], '[', "\\[");
      ReplaceCharCons(']', [], '[', "\\[");
    } else {
      ReplaceCharCons(c, [], '[', "\\[");
    }
  }

  /** Reading an escaped label back: `\[` and `\]` lose their backslash. */
  function UnescapeLabel(s: string): string
  {
    if |s| >= 2 && s[0] == '\\' && (s[1] == '[' || s[1] == ']') then [s[1]] + UnescapeLabel(s[2..])
    else if s == [] then []
    else [s[0]] + UnescapeLabel(s[1..])
  }

  /** Escaping loses nothing: every label can be read back from its escaped form. */
  lemma {:induction false} EscapeLabelInverse(text: string)
    ensures UnescapeLabel(EscapeLabel(text)) == text
  {
    if text == [] {
      assert EscapeLabel(text) == [];
    } else {
      var c, rest := text[0], text[1..];
      assert [c] + rest == text;
      EscapeLabelCons(c, rest);
      EscapeLabelInverse(rest);
      var e := EscapeLabel(rest);
      if rest != [] {
        EscapeLabelCons(rest[0], rest[1..]);
        assert [rest[0]] + rest[1..] == rest;
        assert e[0] == EscapeChar(rest[0])[0];
      }
      if c == '[' || c == ']' {
        assert (EscapeChar(c) + e)[2..] == e;
      } else {
        assert (EscapeChar(c) + e)[1..] == e;
      }
    }
  }

  /** A label without brackets is written as it is. */
  lemma BracketFreeUnescaped(text: string)
    requires BracketFree(text)
    ensures EscapeLabel(text) == text
  {
    ReplaceCharAbsent(text, ']', "\\]");
    ReplaceCharAbsent(text, '[', "\\[");
  }
}
