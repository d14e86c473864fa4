/** The "escape" button of the formatter window: a literal, parser-independent
    rewrite of the text buffer that doubles every reverse solidus and then puts a
    reverse solidus before every quotation mark. It is the quoting part of the
    string escaping of section 7 of RFC 8259, restricted to those two characters:
    control characters are copied as they are. */
module JsonEscape {

  const Backslash: char := '\\'
  const Quote: char := '"'

  /** Python's str.replace for a one-character pattern: every occurrence of c,
      scanned left to right, is replaced by rep; every other character is kept. */
  function Replace(s: seq<char>, c: char, rep: seq<char>): seq<char>
  {
    if s == [] then [] else (if s[0] == c then rep else [s[0]]) + Replace(s[1..], c, rep)
  }

  /** The rewrite escape_json applies to the buffer: first every `\` becomes `\\`,
      then (on that result) every `"` becomes `\"`. */
  function Escape(s: seq<char>): seq<char>
  {
    Replace(Replace(s, Backslash, [Backslash, Backslash]), Quote, [Backslash, Quote])
  }

  /** Reference definition: what each input character turns into. */
  function EscapeChar(c: char): seq<char>
  {
    if c == Backslash then [Backslash, Backslash]
    else if c == Quote then [Backslash, Quote]
    else [c]
  }

  /** Reference definition: a single left-to-right pass escaping character by character. */
  function EscapeEach(s: seq<char>): seq<char>
  {
    if s == [] then [] else EscapeChar(s[0]) + EscapeEach(s[1..])
  }

  /** Reads an escaped text back: `\x` stands for x, any other character for itself. */
  function Unescape(s: seq<char>): seq<char>
  {
    if s == [] then []
    else if s[0] == Backslash && |s| >= 2 then [s[1]] + Unescape(s[2..])
    else [s[0]] + Unescape(s[1..])
  }

  /** Number of occurrences of c in s. */
  function Count(s: seq<char>, c: char): nat
  {
    if s == [] then 0 else (if s[0] == c then 1 else 0) + Count(s[1..], c)
  }

  lemma {:induction false} ReplaceAppend(a: seq<char>, b: seq<char>, c: char, rep: seq<char>)
    ensures Replace(a + b, c, rep) == Replace(a, c, rep) + Replace(b, c, rep)
  {
    if a != [] {
      assert (a + b)[1..] == a[1..] + b;
      ReplaceAppend(a[1..], b, c, rep);
    } else {
      assert a + b == b;
    }
  }

  /** Replacing backslashes before quotes means the backslashes inserted for quotes
      are never doubled: the chained rewrite is exactly the one-pass,
      character-by-character escaping. */
  lemma {:induction false} EscapeIsCharwise(s: seq<char>)
    ensures Escape(s) == EscapeEach(s)
  {
    if s != [] {
      var first := if s[0] == Backslash then [Backslash, Backslash] else [s[0]];
      var rest := Replace(s[1..], Backslash, [Backslash, Backslash]);
      assert Replace(s, Backslash, [Backslash, Backslash]) == first + rest;
      ReplaceAppend(first, rest, Quote, [Backslash, Quote]);
      assert Replace(first, Quote, [Backslash, Quote]) == EscapeChar(s[0]) by {
        if s[0] == Backslash {
          assert first[1..] == [Backslash];
        }
      }
      EscapeIsCharwise(s[1..]);
    }
  }

  lemma {:induction false} EscapeEachLength(s: seq<char>)
    ensures |EscapeEach(s)| == |s| + Count(s, Backslash) + Count(s, Quote)
  {
    if s != [] {
      EscapeEachLength(s[1..]);
    }
  }

  /** Every `\` and every `"` costs one extra character; nothing else changes length. */
  lemma EscapeLength(s: seq<char>)
    ensures |Escape(s)| == |s| + Count(s, Backslash) + Count(s, Quote)
  {
    EscapeIsCharwise(s);
    EscapeEachLength(s);
  }

  lemma {:induction false} UnescapeEscapeEach(s: seq<char>)
    ensures Unescape(EscapeEach(s)) == s
  {
    if s != [] {
      var head, rest := EscapeChar(s[0]), EscapeEach(s[1..]);
      var r := head + rest;
      if s[0] == Backslash || s[0] == Quote {
        assert r[0] == Backslash && r[1] == s[0] && r[2..] == rest;
      } else {
        assert r[0] == s[0] && r[1..] == rest;
      }
      UnescapeEscapeEach(s[1..]);
    }
  }

  /** Escaping loses nothing: every character, special or not, is recovered in
      order, so characters other than `\` and `"` are copied unchanged. */
  lemma EscapeRoundTrip(s: seq<char>)
    ensures Unescape(Escape(s)) == s
  {
    EscapeIsCharwise(s);
    UnescapeEscapeEach(s);
  }

  lemma {:induction false} EscapeEachQuotesPreceded(s: seq<char>)
    ensures forall i :: 0 <= i < |EscapeEach(s)| && EscapeEach(s)[i] == Quote ==>
      0 < i && EscapeEach(s)[i - 1] == Backslash
  {
    if s != [] {
      var head, rest := EscapeChar(s[0]), EscapeEach(s[1..]);
      EscapeEachQuotesPreceded(s[1..]);
      var r := head + rest;
      assert EscapeEach(s) == r;
      forall i | 0 <= i < |r| && r[i] == Quote
        ensures 0 < i && r[i - 1] == Backslash
      {
        if i >= |head| {
          assert rest[i - |head|] == Quote;
        }
      }
    }
  }

  /** In the escaped text no quotation mark stands bare: each one follows a `\`. */
  lemma EscapeQuotesPreceded(s: seq<char>)
    ensures forall i :: 0 <= i < |Escape(s)| && Escape(s)[i] == Quote ==>
      0 < i && Escape(s)[i - 1] == Backslash
  {
    EscapeIsCharwise(s);
    EscapeEachQuotesPreceded(s);
  }

  /** The worked example: a\b"c becomes a\\b\"c. */
  lemma EscapeExample()
    ensures Escape("a\\b\"c") == "a\\\\b\\\"c"
  {
    EscapeIsCharwise("a\\b\"c");
  }
}
