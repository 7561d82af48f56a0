/** The Python string operations the editing routines rely on: `str()` of an
    integer, `str.replace` and the title-casing of boolean words. */
module Text {

  function DigitChar(d: nat): (c: char)
    requires d < 10
    ensures '0' <= c <= '9'
  {
    "0123456789"[d]
  }

  /** Decimal digits of `n` without leading zeros. */
  function NatToString(n: nat): (r: string)
    ensures |r| > 0
    ensures forall i :: 0 <= i < |r| ==> '0' <= r[i] <= '9'
    ensures n >= 10 ==> |r| >= 2
    decreases n
  {
    if n < 10 then [DigitChar(n)] else NatToString(n / 10) + [DigitChar(n % 10)]
  }

  /** Python's `str(i)` for an int. */
  function IntToString(i: int): (r: string)
    ensures |r| > 0
    ensures (r[0] == '-') <==> i < 0
  {
    if i < 0 then "-" + NatToString(-i) else NatToString(i)
  }

  lemma {:induction false} NatToStringInjective(a: nat, b: nat)
    requires NatToString(a) == NatToString(b)
    ensures a == b
    decreases a
  {
    var sa, sb := NatToString(a), NatToString(b);
    if a < 10 && b < 10 {
      assert "0123456789"[a] == sa[0] == sb[0] == "0123456789"[b];
    } else if a >= 10 && b >= 10 {
      assert sa[..|sa| - 1] == NatToString(a / 10);
      assert sb[..|sb| - 1] == NatToString(b / 10);
      NatToStringInjective(a / 10, b / 10);
      assert "0123456789"[a % 10] == sa[|sa| - 1] == sb[|sb| - 1] == "0123456789"[b % 10];
    }
  }

  /** Two integers have the same `str()` only if they are equal, so comparing a
      `year` attribute written by `str()` with `str(target)` compares the years. */
  lemma IntToStringInjective(a: int, b: int)
    requires IntToString(a) == IntToString(b)
    ensures a == b
  {
    var s := IntToString(a);
    if a < 0 {
      assert s[1..] == NatToString(-a) == NatToString(-b);
      NatToStringInjective(-a, -b);
    } else {
      NatToStringInjective(a, b);
    }
  }

  // ---------------------------------------------------------------------
  // str.replace

  /** `pat` occurs in `s` at position `i`. */
  predicate OccursAt(s: string, pat: string, i: nat) {
    i + |pat| <= |s| && s[i..i + |pat|] == pat
  }

  predicate Contains(s: string, pat: string) {
    exists i: nat | i <= |s| :: OccursAt(s, pat, i)
  }

  /** Python's `s.replace(pat, rep)`: every occurrence, scanning left to right,
      without overlaps. */
  function ReplaceAll(s: string, pat: string, rep: string): string
    requires |pat| > 0
    decreases |s|
  {
    if |s| < |pat| then s
    else if s[..|pat|] == pat then rep + ReplaceAll(s[|pat|..], pat, rep)
    else [s[0]] + ReplaceAll(s[1..], pat, rep)
  }

  /** Replacing a pattern that does not occur changes nothing; in particular
      the `if '&quot;' in v or '&amp;' in v` guard before the replacements has
      no effect on the result. */
  lemma {:induction false} ReplaceAbsent(s: string, pat: string, rep: string)
    requires |pat| > 0 && !Contains(s, pat)
    ensures ReplaceAll(s, pat, rep) == s
    decreases |s|
  {
    if |s| >= |pat| {
      assert !OccursAt(s, pat, 0);
      assert s[0..|pat|] == s[..|pat|];
      assert !Contains(s[1..], pat) by {
        forall i: nat | i <= |s[1..]| ensures !OccursAt(s[1..], pat, i) {
          if i + |pat| <= |s[1..]| {
            assert s[1..][i..i + |pat|] == s[i + 1..i + 1 + |pat|];
            assert !OccursAt(s, pat, i + 1);
          }
        }
      }
      ReplaceAbsent(s[1..], pat, rep);
      assert s == [s[0]] + s[1..];
    }
  }

  /** A stretch that cannot start an occurrence is copied through. */
  lemma {:induction false} ReplaceSkips(w: string, t: string, pat: string, rep: string)
    requires |pat| > 0 && pat[0] !in w
    ensures ReplaceAll(w + t, pat, rep) == w + ReplaceAll(t, pat, rep)
    decreases |w|
  {
    if |w| > 0 {
      var s := w + t;
      assert s[0] == w[0] && s[1..] == w[1..] + t;
      if |s| >= |pat| {
        assert s[..|pat|][0] != pat[0];
      } else {
        ReplaceSkips(w[1..], t, pat, rep);
        assert ReplaceAll(t, pat, rep) == t;
      }
      ReplaceSkips(w[1..], t, pat, rep);
    } else {
      assert w + t == t;
    }
  }

  /** No occurrence at the start: the first character is copied. */
  lemma ReplaceMismatch(s: string, pat: string, rep: string, j: nat)
    requires |pat| > 0 && j < |pat| && (j < |s| ==> s[j] != pat[j])
    ensures |s| > 0 ==> ReplaceAll(s, pat, rep) == [s[0]] + ReplaceAll(s[1..], pat, rep)
    ensures |s| < |pat| ==> ReplaceAll(s, pat, rep) == s
  {
    if |s| >= |pat| {
      assert s[..|pat|][j] != pat[j];
    } else if |s| > 0 {
      assert ReplaceAll(s[1..], pat, rep) == s[1..];
    }
  }

  /** An occurrence at the start is replaced. */
  lemma ReplaceFirst(t: string, pat: string, rep: string)
    requires |pat| > 0
    ensures ReplaceAll(pat + t, pat, rep) == rep + ReplaceAll(t, pat, rep)
  {
    var s := pat + t;
    assert s[..|pat|] == pat && s[|pat|..] == t;
  }

  /** The two replacements of the widget builders, `&quot;` first and `&amp;`
      second. */
  function DecodeEntities(s: string): string {
    ReplaceAll(ReplaceAll(s, "&quot;", "\""), "&amp;", "&")
  }

  /** A value without `&` is stored as it is. */
  lemma DecodeWithoutAmpersand(s: string)
    requires '&' !in s
    ensures DecodeEntities(s) == s
  {
    assert !Contains(s, "&quot;") by {
      forall i: nat | i <= |s| ensures !OccursAt(s, "&quot;", i) {
        if i + 6 <= |s| {
          assert s[i] in s;
          assert s[i..i + 6][0] == s[i] != '&';
        }
      }
    }
    ReplaceAbsent(s, "&quot;", "\"");
    assert !Contains(s, "&amp;") by {
      forall i: nat | i <= |s| ensures !OccursAt(s, "&amp;", i) {
        if i + 5 <= |s| {
          assert s[i] in s;
          assert s[i..i + 5][0] == s[i] != '&';
        }
      }
    }
    ReplaceAbsent(s, "&amp;", "&");
  }

  /** XML attribute escaping of `&` and `"`, the encoding the replacements undo. */
  function EscapeChar(c: char): string {
    if c == '&' then "&amp;" else if c == '"' then "&quot;" else [c]
  }

  function Escape(t: string): string
    decreases |t|
  {
    if |t| == 0 then [] else EscapeChar(t[0]) + Escape(t[1..])
  }

  /** Escaping works character by character. */
  lemma {:induction false} EscapeAppend(a: string, b: string)
    ensures Escape(a + b) == Escape(a) + Escape(b)
    decreases |a|
  {
    if |a| > 0 {
      assert (a + b)[0] == a[0] && (a + b)[1..] == a[1..] + b;
      EscapeAppend(a[1..], b);
    } else {
      assert a + b == b;
    }
  }

  /** What is left of an escaped string once `&quot;` has been replaced. */
  function EscapeAmp(t: string): string
    decreases |t|
  {
    if |t| == 0 then [] else (if t[0] == '&' then "&amp;" else [t[0]]) + EscapeAmp(t[1..])
  }

  /** `&amp;` holds no `&quot;`, so replacing `&quot;` passes over it. */
  lemma QuotSkipsAmp(x: string)
    ensures ReplaceAll("&amp;" + x, "&quot;", "\"") == "&amp;" + ReplaceAll(x, "&quot;", "\"")
  {
    var s := "&amp;" + x;
    ReplaceMismatch(s, "&quot;", "\"", 1);
    assert s[1..] == "amp;" + x;
    ReplaceSkips("amp;", x, "&quot;", "\"");
  }

  lemma {:induction false} QuotDecodeEscape(t: string)
    ensures ReplaceAll(Escape(t), "&quot;", "\"") == EscapeAmp(t)
    decreases |t|
  {
    if |t| > 0 {
      var c, x := t[0], Escape(t[1..]);
      QuotDecodeEscape(t[1..]);
      if c == '&' {
        QuotSkipsAmp(x);
      } else if c == '"' {
        ReplaceFirst(x, "&quot;", "\"");
      } else {
        ReplaceSkips([c], x, "&quot;", "\"");
      }
    }
  }

  lemma {:induction false} AmpDecodeEscape(t: string)
    ensures ReplaceAll(EscapeAmp(t), "&amp;", "&") == t
    decreases |t|
  {
    if |t| > 0 {
      var c, x := t[0], EscapeAmp(t[1..]);
      AmpDecodeEscape(t[1..]);
      if c == '&' {
        ReplaceFirst(x, "&amp;", "&");
      } else {
        ReplaceSkips([c], x, "&amp;", "&");
      }
      assert t == [c] + t[1..];
    }
  }

  /** The replacements decode every escaped string: because `&amp;` goes last,
      an escaped `&quot;` (written `&amp;quot;`) comes back as `&quot;`, not `"`. */
  lemma DecodeEscape(t: string)
    ensures DecodeEntities(Escape(t)) == t
  {
    QuotDecodeEscape(t);
    AmpDecodeEscape(t);
  }

  /** Escaping leaves a string without `&` and `"` unchanged. */
  lemma {:induction false} EscapePlain(t: string)
    requires '&' !in t && '"' !in t
    ensures Escape(t) == t
    decreases |t|
  {
    if |t| > 0 {
      assert t[0] in t;
      assert forall c :: c in t[1..] ==> c in t;
      EscapePlain(t[1..]);
      assert t == [t[0]] + t[1..];
    }
  }

  /** An escaped string without `&` had nothing to escape. */
  lemma {:induction false} EscapeWithoutAmp(t: string)
    requires '&' !in Escape(t)
    ensures Escape(t) == t
    decreases |t|
  {
    if |t| > 0 {
      var h, x := EscapeChar(t[0]), Escape(t[1..]);
      assert Escape(t) == h + x;
      assert h == [t[0]] by {
        assert Escape(t)[0] == h[0];
        assert Escape(t)[0] in Escape(t);
      }
      assert '&' !in x by {
        forall k | 0 <= k < |x| ensures x[k] != '&' {
          assert Escape(t)[1 + k] == x[k];
        }
      }
      EscapeWithoutAmp(t[1..]);
      assert t == [t[0]] + t[1..];
    }
  }

  predicate IsAsciiLetter(c: char) {
    'a' <= c <= 'z' || 'A' <= c <= 'Z'
  }

  function ToUpper(c: char): char {
    if 'a' <= c <= 'z' then (c as int - 32) as char else c
  }

  function ToLower(c: char): char {
    if 'A' <= c <= 'Z' then (c as int + 32) as char else c
  }

  /** `str.title()` on ASCII text: a letter that follows a letter is
      lower-cased, every other letter upper-cased. */
  function Title(s: string): (r: string)
    ensures |r| == |s|
  {
    TitleAfter(false, s)
  }

  /** Title-casing of `s` when the character before it was a letter or not. */
  function TitleAfter(afterLetter: bool, s: string): (r: string)
    ensures |r| == |s|
    decreases |s|
  {
    if |s| == 0 then []
    else [if afterLetter then ToLower(s[0]) else ToUpper(s[0])] + TitleAfter(IsAsciiLetter(s[0]), s[1..])
  }

  /** `v in ('TRUE', 'FALSE', 'true', 'false')` */
  predicate IsBoolWord(s: string) {
    s == "TRUE" || s == "FALSE" || s == "true" || s == "false"
  }

  /** `v.title()` for the four words the builders title-case; other values are kept. */
  function TitleBoolWord(s: string): (r: string)
    ensures s == "TRUE" || s == "true" ==> r == "True"
    ensures s == "FALSE" || s == "false" ==> r == "False"
    ensures !IsBoolWord(s) ==> r == s
  {
    if IsBoolWord(s) then
      TitleOfBoolWords();
      Title(s)
    else s
  }

  lemma BoolWordsPlain(s: string)
    requires IsBoolWord(s)
    ensures '&' !in s && '"' !in s
    ensures '&' !in TitleBoolWord(s)
  {
    if s == "TRUE" || s == "true" {
      assert TitleBoolWord(s) == "True";
    } else {
      assert TitleBoolWord(s) == "False";
    }
  }

  /** Text longer than the boolean words is never title-cased. */
  lemma LongNotTitled(s: string)
    requires |s| > 5
    ensures TitleBoolWord(s) == s
  {
    assert s != "TRUE" && s != "true" && s != "FALSE" && s != "false";
  }

  lemma TitleOfBoolWords()
    ensures Title("TRUE") == "True" && Title("true") == "True"
    ensures Title("FALSE") == "False" && Title("false") == "False"
  {
    var t, f := Title("TRUE"), Title("true");
    assert t[0] == 'T' && t[1] == 'r' && t[2] == 'u' && t[3] == 'e';
    assert f[0] == 'T' && f[1] == 'r' && f[2] == 'u' && f[3] == 'e';
    var g, h := Title("FALSE"), Title("false");
    assert g[0] == 'F' && g[1] == 'a' && g[2] == 'l' && g[3] == 's' && g[4] == 'e';
    assert h[0] == 'F' && h[1] == 'a' && h[2] == 'l' && h[3] == 's' && h[4] == 'e';
  }
}
