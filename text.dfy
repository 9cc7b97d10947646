/** Character-level string helpers of the converter: the double-quote test,
    the quote stripping applied to notes, and the apostrophe escaper applied
    to leaf text of the generated XML. */
module Text {

  /** True when `text` contains a double quote (the CSV field-escape mark). */
  predicate HasDoubleQuotes(text: string)
    ensures HasDoubleQuotes(text) <==> Count(text, '"') > 0
  {
    '"' in text
  }

  /** Number of occurrences of `c` in `s`. */
  function Count(s: string, c: char): (n: nat)
    ensures n <= |s|
    ensures n == 0 <==> c !in s
  {
    if s == [] then 0 else (if s[0] == c then 1 else 0) + Count(s[1..], c)
  }

  // ---------------------------------------------------------------------
  // note.replace('"', '')

  /** `s` with every double quote removed. */
  function StripQuotes(s: string): (r: string)
    ensures !HasDoubleQuotes(r)
    ensures |r| == |s| - Count(s, '"')
  {
    if s == [] then []
    else if s[0] == '"' then StripQuotes(s[1..])
    else [s[0]] + StripQuotes(s[1..])
  }

  /** Every character other than the quote occurs as often as before. */
  lemma {:induction false} StripQuotesKeepsOthers(s: string, c: char)
    requires c != '"'
    ensures Count(StripQuotes(s), c) == Count(s, c)
  {
    if s != [] {
      StripQuotesKeepsOthers(s[1..], c);
      if s[0] != '"' {
        assert ([s[0]] + StripQuotes(s[1..]))[1..] == StripQuotes(s[1..]);
      }
    }
  }

  /** Removing quotes works piecewise, so the kept characters stay in order. */
  lemma {:induction false} StripQuotesAppend(a: string, b: string)
    ensures StripQuotes(a + b) == StripQuotes(a) + StripQuotes(b)
  {
    if a != [] {
      assert (a + b)[0] == a[0];
      assert (a + b)[1..] == a[1..] + b;
      StripQuotesAppend(a[1..], b);
    } else {
      assert a + b == b;
    }
  }

  /** A quote-free string is left as it is. */
  lemma {:induction false} StripQuotesIdentity(s: string)
    requires !HasDoubleQuotes(s)
    ensures StripQuotes(s) == s
  {
    if s != [] {
      assert s[0] in s;
      assert !HasDoubleQuotes(s[1..]) by {
        forall k | 0 <= k < |s| - 1 ensures s[1..][k] != '"' {
          assert s[1..][k] == s[k + 1];
        }
      }
      StripQuotesIdentity(s[1..]);
    }
  }

  lemma StripQuotesIdempotent(s: string)
    ensures StripQuotes(StripQuotes(s)) == StripQuotes(s)
  {
    StripQuotesIdentity(StripQuotes(s));
  }

  // ---------------------------------------------------------------------
  // html_escape: every apostrophe becomes the entity &apos;

  const Apos: string := "&apos;"

  /** The replacement of one character under the escape table. */
  function EscapeChar(c: char): (r: string)
    ensures c == '\'' ==> r == Apos
    ensures c != '\'' ==> r == [c]
  {
    if c == '\'' then Apos else [c]
  }

  /** Character-wise substitution of `'` by `&apos;`, all other characters kept. */
  function HtmlEscape(s: string): (r: string)
    ensures '\'' !in r
    ensures |r| == |s| + 5 * Count(s, '\'')
  {
    if s == [] then [] else EscapeChar(s[0]) + HtmlEscape(s[1..])
  }

  /** Escaping works piecewise: the output is the escaped characters in input order. */
  lemma {:induction false} HtmlEscapeAppend(a: string, b: string)
    ensures HtmlEscape(a + b) == HtmlEscape(a) + HtmlEscape(b)
  {
    if a != [] {
      assert (a + b)[0] == a[0];
      assert (a + b)[1..] == a[1..] + b;
      HtmlEscapeAppend(a[1..], b);
    } else {
      assert a + b == b;
    }
  }

  /** Text without apostrophes is not changed. */
  lemma {:induction false} HtmlEscapeIdentity(s: string)
    requires '\'' !in s
    ensures HtmlEscape(s) == s
  {
    if s != [] {
      assert s[0] in s;
      assert '\'' !in s[1..] by {
        forall k | 0 <= k < |s| - 1 ensures s[1..][k] != '\'' {
          assert s[1..][k] == s[k + 1];
        }
      }
      HtmlEscapeIdentity(s[1..]);
    }
  }

  /** Escaping twice is escaping once. */
  lemma HtmlEscapeIdempotent(s: string)
    ensures HtmlEscape(HtmlEscape(s)) == HtmlEscape(s)
  {
    HtmlEscapeIdentity(HtmlEscape(s));
  }

  /** True when `r` begins with `p`. */
  predicate StartsWith(r: string, p: string)
  {
    |r| >= |p| && r[..|p|] == p
  }

  lemma StartsWithCons(c: char, r: string, p: string)
    requires p != []
    ensures StartsWith([c] + r, p) <==> c == p[0] && StartsWith(r, p[1..])
  {
    if |r| >= |p| - 1 {
      assert ([c] + r)[..|p|] == [c] + r[..|p| - 1];
      assert p == [p[0]] + p[1..];
    }
  }

  /** Reverses the substitution: each `&apos;` becomes `'` again. */
  function Unescape(s: string): (r: string)
    ensures |r| <= |s|
    decreases |s|
  {
    if s == [] then []
    else if StartsWith(s, Apos) then "'" + Unescape(s[|Apos|..])
    else [s[0]] + Unescape(s[1..])
  }

  /** True when the entity text `&apos;` occurs nowhere in `s`. ElementTree
      writes every `&` of leaf text as `&amp;`, so the text it serialises
      has this property. */
  predicate NoAposEntity(s: string)
  {
    s == [] || (!StartsWith(s, Apos) && NoAposEntity(s[1..]))
  }

  /** The first character of the escape of `s`. */
  lemma EscapeFirst(s: string)
    requires s != []
    ensures HtmlEscape(s) != [] && HtmlEscape(s)[0] == (if s[0] == '\'' then '&' else s[0])
  {
    assert HtmlEscape(s) == EscapeChar(s[0]) + HtmlEscape(s[1..]);
  }

  /** A prefix without `&` can only come from the same prefix of the input:
      escaping never produces such text out of anything else. */
  lemma {:induction false} EscapedPrefix(s: string, p: string)
    requires forall k :: 0 <= k < |p| ==> p[k] != '&'
    requires StartsWith(HtmlEscape(s), p)
    ensures StartsWith(s, p)
  {
    if p != [] {
      assert s != [];
      EscapeFirst(s);
      assert p[0] == HtmlEscape(s)[0];
      assert s[0] != '\'';
      assert HtmlEscape(s) == [s[0]] + HtmlEscape(s[1..]);
      StartsWithCons(s[0], HtmlEscape(s[1..]), p);
      EscapedPrefix(s[1..], p[1..]);
      StartsWithCons(s[0], s[1..], p);
      assert s == [s[0]] + s[1..];
    }
  }

  /** After its leading `&`, the entity holds no further `&`. */
  lemma EntityTail()
    ensures Apos == ['&'] + Apos[1..]
    ensures forall k :: 0 <= k < |Apos[1..]| ==> Apos[1..][k] != '&'
  {
    var q := Apos[1..];
    assert q == ['a', 'p', 'o', 's', ';'];
    assert forall k :: 0 <= k < |q| ==> q[k] in {'a', 'p', 'o', 's', ';'};
  }

  /** Escaping text that starts neither with `'` nor with `&apos;` does not
      produce text starting with `&apos;`. */
  lemma EscapeDoesNotStartWithEntity(s: string)
    requires s != [] && s[0] != '\'' && !StartsWith(s, Apos)
    ensures !StartsWith(HtmlEscape(s), Apos)
  {
    var rest := HtmlEscape(s[1..]);
    assert HtmlEscape(s) == [s[0]] + rest;
    StartsWithCons(s[0], rest, Apos);
    StartsWithCons(s[0], s[1..], Apos);
    assert s == [s[0]] + s[1..];
    EntityTail();
    if StartsWith(rest, Apos[1..]) {
      EscapedPrefix(s[1..], Apos[1..]);
    }
  }

  /** Unescaping the escape of `s` gives back its first character, followed
      by the unescaped escape of the rest. */
  lemma UnescapeEscapedHead(s: string)
    requires s != [] && !StartsWith(s, Apos)
    ensures Unescape(HtmlEscape(s)) == [s[0]] + Unescape(HtmlEscape(s[1..]))
  {
    var rest := HtmlEscape(s[1..]);
    if s[0] == '\'' {
      var t := Apos + rest;
      assert HtmlEscape(s) == t;
      assert t[..|Apos|] == Apos;
      assert t[|Apos|..] == rest;
    } else {
      var t := [s[0]] + rest;
      assert HtmlEscape(s) == t;
      EscapeDoesNotStartWithEntity(s);
      assert t[1..] == rest;
    }
  }

  /** On text in which `&apos;` does not occur (such as ElementTree's leaf
      text), escaping loses nothing: unescaping restores it. */
  lemma {:induction false} UnescapeHtmlEscape(s: string)
    requires NoAposEntity(s)
    ensures Unescape(HtmlEscape(s)) == s
  {
    if s != [] {
      UnescapeEscapedHead(s);
      UnescapeHtmlEscape(s[1..]);
      assert s == [s[0]] + s[1..];
    }
  }

  /** Without that restriction the escaper is not injective: a literal
      `&apos;` and a lone apostrophe escape to the same text. */
  lemma HtmlEscapeNotInjective()
    ensures HtmlEscape(Apos) == HtmlEscape("'")
    ensures Apos != "'"
  {
    HtmlEscapeIdentity(Apos);
    assert HtmlEscape("'") == EscapeChar('\'') + HtmlEscape("");
  }
}
