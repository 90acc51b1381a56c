/** Removal of the game's formatting-colour escapes from a death message:
    the regular-expression replacement `onPlayerDeath` applies before
    sending. The escape introducer is the section sign as it appears in the
    source file after a mis-decoding, two characters U+0E22 U+0E07. */
module ColourCodes {
  import opened JavaStrings

  /** The escape introducer, character for character as the source holds it. */
  const Introducer: string := "\U{0E22}\U{0E07}"

  /** The character class that may follow the introducer:
      `[0-9a-fA-FklmnoK-LOrR]`. */
  predicate IsCodeChar(c: char) {
    || '0' <= c <= '9'
    || 'a' <= c <= 'f'
    || 'A' <= c <= 'F'
    || c in "klmnoKLOrR"
  }

  /** An escape (introducer and code character) starts at index `i` of `s`. */
  predicate CodeAt(s: string, i: nat) {
    i + 3 <= |s| && s[i..i + 2] == Introducer && IsCodeChar(s[i + 2])
  }

  /** `s.replaceAll(introducer + class, "")`: the escapes are matched left
      to right without overlap and removed; everything else is kept. Each
      removal takes three characters, and a string without the introducer
      is returned as it is. */
  function Strip(s: string): (r: string)
    ensures |r| <= |s|
    ensures (|s| - |r|) % 3 == 0
    ensures !Contains(s, Introducer) ==> r == s
    ensures CodeAt(s, 0) ==> |r| <= |s| - 3
    decreases |s|
  {
    if CodeAt(s, 0) then Strip(s[3..])
    else if |s| == 0 then s
    else [s[0]] + Strip(s[1..])
  }

  /** A leading escape is removed and the scan resumes after it. */
  lemma StripLeadingCode(c: char, rest: string)
    requires IsCodeChar(c)
    ensures Strip(Introducer + [c] + rest) == Strip(rest)
  {
  }

  /** A prefix without the introducer's first character is kept as it is,
      whatever follows it. */
  lemma {:induction false} StripKeepsPlainPrefix(a: string, rest: string)
    requires Introducer[0] !in a
    ensures Strip(a + rest) == a + Strip(rest)
    decreases |a|
  {
    if |a| > 0 {
      var s := a + rest;
      assert s[0] == a[0];
      assert !CodeAt(s, 0);
      assert s[1..] == a[1..] + rest;
      StripKeepsPlainPrefix(a[1..], rest);
      assert a == [a[0]] + a[1..];
    } else {
      assert a + rest == rest;
    }
  }

  /** An escape after text without the introducer's first character is
      removed, the text before it is kept, and the scan goes on after it. */
  lemma StripAround(a: string, c: char, b: string)
    requires Introducer[0] !in a && IsCodeChar(c)
    ensures Strip(a + Introducer + [c] + b) == a + Strip(b)
  {
    Associative4(a, Introducer, [c], b);
    StripKeepsPlainPrefix(a, Introducer + [c] + b);
    StripLeadingCode(c, b);
  }

  /** The introducer followed by a character outside the code class is
      kept, and the scan resumes at that character. */
  lemma StripKeepsFalseEscape(c: char, b: string)
    requires !IsCodeChar(c)
    ensures Strip(Introducer + [c] + b) == Introducer + Strip([c] + b)
  {
    var i0, i1 := Introducer[0], Introducer[1];
    var rest := [c] + b;
    Associative(Introducer, [c], b);
    IntroducerRegrouped(rest);
    IntroducerRegrouped(Strip(rest));
    FalseEscapeNoCode(c, b);
    StripKeepsHead([i0], [i1] + rest);
    StripKeepsPlainPrefix([i1], rest);
  }

  /** Concatenation is associative. */
  lemma Associative(x: string, y: string, z: string)
    ensures x + y + z == x + (y + z)
  {
  }

  /** Concatenation is associative, for four strings. */
  lemma Associative4(w: string, x: string, y: string, z: string)
    ensures w + x + y + z == w + (x + y + z)
  {
  }

  /** The introducer, split into its two characters. */
  lemma IntroducerRegrouped(x: string)
    ensures Introducer + x == [Introducer[0]] + ([Introducer[1]] + x)
  {
  }

  /** An introducer followed by a character outside the code class does
      not start an escape. */
  lemma FalseEscapeNoCode(c: char, b: string)
    requires !IsCodeChar(c)
    ensures !CodeAt(Introducer + ([c] + b), 0)
  {
    assert (Introducer + ([c] + b))[2] == c;
  }

  /** A one-character front that starts no escape is kept. */
  lemma StripKeepsHead(x: string, rest: string)
    requires |x| == 1 && !CodeAt(x + rest, 0)
    ensures Strip(x + rest) == x + Strip(rest)
  {
    assert (x + rest)[1..] == rest;
    assert x == [x[0]];
  }

  /** Stripping leaves a string unchanged exactly when no escape starts
      anywhere in it: every escape the string holds is met by the scan. */
  lemma {:induction false} StripChangesExactlyEscapes(s: string)
    ensures Strip(s) == s <==> forall i: nat | i < |s| :: !CodeAt(s, i)
    decreases |s|
  {
    if CodeAt(s, 0) {
      assert |Strip(s)| < |s|;
    } else if |s| > 0 {
      var t := s[1..];
      StripChangesExactlyEscapes(t);
      CodesShift(s);
      SameTail(s, Strip(s), Strip(t));
      if Strip(s) == s {
        forall i: nat | i < |s| ensures !CodeAt(s, i) {
          if i > 0 {
            assert !CodeAt(t, i - 1);
          }
        }
      } else {
        var j: nat :| j < |t| && CodeAt(t, j);
        assert CodeAt(s, j + 1);
      }
    }
  }

  /** Escapes in the tail of a string are the escapes of the string, one
      position further on. */
  lemma CodesShift(s: string)
    requires |s| > 0
    ensures forall i: nat | i < |s| - 1 :: CodeAt(s[1..], i) <==> CodeAt(s, i + 1)
  {
    forall i: nat | i < |s| - 1 ensures CodeAt(s[1..], i) <==> CodeAt(s, i + 1) {
      if i + 3 <= |s| - 1 {
        assert s[1..][i..i + 2] == s[i + 1..i + 3];
      }
    }
  }

  /** Past a first character that starts no escape, the stripped string
      equals the string exactly when the stripped tail equals the tail. */
  lemma SameTail(s: string, r: string, tail: string)
    requires |s| > 0 && r == [s[0]] + tail
    ensures r == s <==> tail == s[1..]
  {
    assert s == [s[0]] + s[1..];
    if r == s {
      assert tail == r[1..];
    }
  }

  /** Stripping is not idempotent: an escape split by another escape is
      joined up by the first pass and removed by the second. */
  lemma StripNotIdempotent()
    ensures
      var s := [Introducer[0]] + Introducer + "a" + [Introducer[1]] + "a";
      Strip(s) == Introducer + "a" && Strip(Strip(s)) == ""
  {
    var i0, i1 := Introducer[0], Introducer[1];
    var s := [i0] + Introducer + "a" + [i1] + "a";
    assert !CodeAt(s, 0) by { assert s[1] == i0 != i1; }
    assert s[1..] == Introducer + ['a'] + ([i1] + "a");
    StripLeadingCode('a', [i1] + "a");
    StripKeepsPlainPrefix([i1] + "a", "");
    assert [i1] + "a" + "" == [i1] + "a";
    assert Strip(s) == [i0] + ([i1] + "a");
    assert [i0] + ([i1] + "a") == Introducer + ['a'] + "";
    StripLeadingCode('a', "");
  }
}
