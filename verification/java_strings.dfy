/** The handful of `java.lang.String` operations the bridge relies on, with
    Java's semantics written out: `startsWith`, `contains`, `replace` (literal,
    left to right, non-overlapping), `split` on a one-character separator
    (trailing empty fields dropped), and `Integer.toString` for naturals. */
module JavaStrings {

  /** `s.startsWith(p)` */
  predicate StartsWith(s: string, p: string) {
    |p| <= |s| && s[..|p|] == p
  }

  /** `p` occurs in `s` starting at index `i`. */
  predicate OccursAt(s: string, p: string, i: int) {
    0 <= i && i + |p| <= |s| && s[i..i + |p|] == p
  }

  /** `s.contains(p)`, tried at every start position from the left. */
  predicate Contains(s: string, p: string)
    decreases |s|
  {
    StartsWith(s, p) || (|s| > 0 && Contains(s[1..], p))
  }

  lemma {:induction false} ContainsIsSomeOccurrence(s: string, p: string)
    ensures Contains(s, p) <==> exists i :: OccursAt(s, p, i)
    decreases |s|
  {
    if StartsWith(s, p) {
      assert OccursAt(s, p, 0);
    } else if |s| > 0 {
      ContainsIsSomeOccurrence(s[1..], p);
      if Contains(s[1..], p) {
        var i :| OccursAt(s[1..], p, i);
        assert s[1..][i..i + |p|] == s[i + 1..i + 1 + |p|];
        assert OccursAt(s, p, i + 1);
      } else {
        assert OccursAt(s, p, 0) ==> StartsWith(s, p);
        forall i | 1 <= i && OccursAt(s, p, i) ensures OccursAt(s[1..], p, i - 1) {
          assert s[1..][i - 1..i - 1 + |p|] == s[i..i + |p|];
        }
      }
    }
  }

  /** A string shorter than `p` cannot contain it (unless `p` is empty). */
  lemma ShorterDoesNotContain(s: string, p: string)
    requires |s| < |p|
    ensures !Contains(s, p)
  {
  }

  /** A string as long as `p` contains it only by being equal to it. */
  lemma SameLengthContainsOnlyItself(s: string, p: string)
    requires |s| == |p|
    ensures Contains(s, p) <==> s == p
  {
    ContainsIsSomeOccurrence(s, p);
    if Contains(s, p) {
      var i :| OccursAt(s, p, i);
      assert i == 0;
    } else {
      assert !OccursAt(s, p, 0);
    }
  }

  /** A string that contains `p` holds every character of `p`. */
  lemma ContainedCharsOccur(s: string, p: string)
    ensures Contains(s, p) ==> forall k | 0 <= k < |p| :: p[k] in s
  {
    ContainsIsSomeOccurrence(s, p);
    forall i, k | OccursAt(s, p, i) && 0 <= k < |p| ensures p[k] in s {
      assert s[i..i + |p|][k] == s[i + k];
    }
  }

  /** Java's `s.replace(target, replacement)` on an empty target: the
      replacement goes before every character and at the end. */
  function InsertEverywhere(s: string, replacement: string): (r: string)
    ensures |r| == |s| + (|s| + 1) * |replacement|
    decreases |s|
  {
    if |s| == 0 then replacement
    else replacement + [s[0]] + InsertEverywhere(s[1..], replacement)
  }

  /** `s.replace(target, replacement)`: every occurrence of `target`, found
      scanning from the left and not overlapping an earlier one, is replaced. */
  function Replace(s: string, target: string, replacement: string): (r: string)
    ensures |target| > 0 && StartsWith(s, target) ==> StartsWith(r, replacement)
    decreases |s|
  {
    if |target| == 0 then InsertEverywhere(s, replacement)
    else if StartsWith(s, target) then replacement + Replace(s[|target|..], target, replacement)
    else if |s| == 0 then s
    else [s[0]] + Replace(s[1..], target, replacement)
  }

  /** Text that does not contain a non-empty target is left unchanged. */
  lemma {:induction false} ReplaceWithoutTarget(s: string, target: string, replacement: string)
    requires |target| > 0 && !Contains(s, target)
    ensures Replace(s, target, replacement) == s
    decreases |s|
  {
    if |s| > 0 {
      ReplaceWithoutTarget(s[1..], target, replacement);
      assert s == [s[0]] + s[1..];
    }
  }

  /** An occurrence of the target at the front is replaced first. */
  lemma ReplaceAtFront(target: string, rest: string, replacement: string)
    requires |target| > 0
    ensures Replace(target + rest, target, replacement) == replacement + Replace(rest, target, replacement)
  {
  }

  /** A prefix without the target's first character is copied unchanged. */
  lemma {:induction false} ReplaceSkipsFreePrefix(a: string, rest: string, target: string, replacement: string)
    requires |target| > 0 && target[0] !in a
    ensures Replace(a + rest, target, replacement) == a + Replace(rest, target, replacement)
    decreases |a|
  {
    if |a| > 0 {
      var s := a + rest;
      assert s[0] == a[0];
      assert !StartsWith(s, target);
      assert s[1..] == a[1..] + rest;
      ReplaceSkipsFreePrefix(a[1..], rest, target, replacement);
      assert a == [a[0]] + a[1..];
    } else {
      assert a + rest == rest;
    }
  }

  /** A first character that does not start an occurrence is copied. */
  lemma ReplaceKeepsHead(p: string, rest: string, target: string, replacement: string)
    requires |p| > 0 && |target| > 0 && !StartsWith(p + rest, target)
    ensures Replace(p + rest, target, replacement) == [p[0]] + Replace(p[1..] + rest, target, replacement)
  {
    assert (p + rest)[1..] == p[1..] + rest;
  }

  /** Text that does not start an occurrence at its front and holds the
      target's first character nowhere else is copied unchanged. */
  lemma KeepsNonMatchingHead(p: string, rest: string, target: string, replacement: string)
    requires |p| > 0 && |target| > 0
    requires !StartsWith(p + rest, target) && target[0] !in p[1..]
    ensures Replace(p + rest, target, replacement) == p + Replace(rest, target, replacement)
  {
    ReplaceKeepsHead(p, rest, target, replacement);
    ReplaceSkipsFreePrefix(p[1..], rest, target, replacement);
    Reattach(p, Replace(p + rest, target, replacement), Replace(rest, target, replacement));
  }

  /** Putting the first character back in front of the rest of `p`. */
  lemma Reattach(p: string, x: string, tail: string)
    requires |p| > 0 && x == [p[0]] + (p[1..] + tail)
    ensures x == p + tail
  {
  }

  /** The pieces with `sep` between consecutive ones. */
  function JoinWith(pieces: seq<string>, sep: string): string
    decreases |pieces|
  {
    if |pieces| == 0 then ""
    else if |pieces| == 1 then pieces[0]
    else pieces[0] + (sep + JoinWith(pieces[1..], sep))
  }

  /** The target's first character does not recur in it, so two of its
      occurrences can never overlap. */
  predicate FirstCharUnique(target: string) {
    |target| > 0 && target[0] !in target[1..]
  }

  /** Text free of the target, followed by the target: the text is copied
      and the target replaced. */
  lemma {:induction false} ReplaceBeforeTarget(a: string, target: string, rest: string, replacement: string)
    requires FirstCharUnique(target) && !Contains(a, target)
    ensures Replace(a + (target + rest), target, replacement) == a + (replacement + Replace(rest, target, replacement))
    decreases |a|
  {
    var tail := Replace(rest, target, replacement);
    if |a| == 0 {
      EmptyPrefix(a, target + rest);
      EmptyPrefix(a, replacement + tail);
      ReplaceAtFront(target, rest, replacement);
    } else {
      NoOccurrenceStraddles(a, target, rest);
      ReplaceKeepsHead(a, target + rest, target, replacement);
      ReplaceBeforeTarget(a[1..], target, rest, replacement);
      Reattach(a, Replace(a + (target + rest), target, replacement), replacement + tail);
    }
  }

  /** Nothing in front leaves a string as it is. */
  lemma EmptyPrefix(a: string, x: string)
    requires |a| == 0
    ensures a + x == x
  {
  }

  /** An occurrence starting inside target-free text cannot run into a
      following target: it would hold the target's first character twice. */
  lemma NoOccurrenceStraddles(a: string, target: string, rest: string)
    requires FirstCharUnique(target) && !Contains(a, target) && |a| > 0
    ensures !StartsWith(a + (target + rest), target)
  {
    var s := a + (target + rest);
    if |target| <= |a| {
      assert s[..|target|] == a[..|target|];
    } else if |target| <= |s| {
      assert target[1..][|a| - 1] == target[|a|];
      assert s[..|target|][|a|] == target[0];
    }
  }

  /** For a target whose occurrences cannot overlap, replacing it in pieces
      joined by it, none of which holds it, replaces exactly the joints:
      every occurrence is replaced and nothing else changes. */
  lemma {:induction false} ReplaceJoined(pieces: seq<string>, target: string, replacement: string)
    requires FirstCharUnique(target)
    requires forall k | 0 <= k < |pieces| :: !Contains(pieces[k], target)
    ensures Replace(JoinWith(pieces, target), target, replacement) == JoinWith(pieces, replacement)
    decreases |pieces|
  {
    if |pieces| == 1 {
      ReplaceWithoutTarget(pieces[0], target, replacement);
    } else if |pieces| >= 2 {
      ReplaceJoined(pieces[1..], target, replacement);
      ReplaceBeforeTarget(pieces[0], target, JoinWith(pieces[1..], target), replacement);
    }
  }

  /** The fields of `s` between occurrences of `sep`, empty ones included:
      `k` separators give `k + 1` fields. */
  function Fields(s: string, sep: char): (r: seq<string>)
    ensures |r| >= 1
    decreases |s|
  {
    if |s| == 0 then [""]
    else
      var rest := Fields(s[1..], sep);
      if s[0] == sep then [""] + rest
      else [[s[0]] + rest[0]] + rest[1..]
  }

  /** `String.join(sep, fields)` */
  function Join(fields: seq<string>, sep: char): string
    requires |fields| >= 1
    decreases |fields|
  {
    if |fields| == 1 then fields[0] else fields[0] + [sep] + Join(fields[1..], sep)
  }

  /** Number of occurrences of `c` in `s`. */
  function CountChar(s: string, c: char): nat
    decreases |s|
  {
    if |s| == 0 then 0 else (if s[0] == c then 1 else 0) + CountChar(s[1..], c)
  }

  /** Splitting and re-joining gives back the string; no field holds the
      separator; there is one more field than separators. */
  lemma {:induction false} FieldsJoinBack(s: string, sep: char)
    ensures Join(Fields(s, sep), sep) == s
    ensures forall k | 0 <= k < |Fields(s, sep)| :: sep !in Fields(s, sep)[k]
    ensures |Fields(s, sep)| == CountChar(s, sep) + 1
    decreases |s|
  {
    if |s| > 0 {
      FieldsJoinBack(s[1..], sep);
      var rest := Fields(s[1..], sep);
      if s[0] == sep {
        assert Fields(s, sep) == [""] + rest;
        assert ([""] + rest)[1..] == rest;
        assert s == [s[0]] + s[1..];
      } else {
        var fs := Fields(s, sep);
        assert fs == [[s[0]] + rest[0]] + rest[1..];
        if |rest| == 1 {
          assert s == [s[0]] + s[1..];
        } else {
          assert fs[1..] == rest[1..];
          assert Join(rest, sep) == rest[0] + [sep] + Join(rest[1..], sep);
          assert s == [s[0]] + s[1..];
        }
        forall k | 0 <= k < |fs| ensures sep !in fs[k] {
          if k > 0 {
            assert fs[k] == rest[k];
          }
        }
      }
    }
  }

  /** A separator-free first field is split off exactly. */
  lemma {:induction false} FieldsOfSeparated(a: string, sep: char, b: string)
    requires sep !in a
    ensures Fields(a + [sep] + b, sep) == [a] + Fields(b, sep)
    decreases |a|
  {
    if |a| == 0 {
      assert a + [sep] + b == [sep] + b;
      assert ([sep] + b)[1..] == b;
    } else {
      var s := a + [sep] + b;
      assert s[1..] == a[1..] + [sep] + b;
      FieldsOfSeparated(a[1..], sep, b);
      assert [a[0]] + a[1..] == a;
    }
  }

  /** Joining separator-free fields and splitting again gives them back. */
  lemma {:induction false} JoinFieldsBack(fields: seq<string>, sep: char)
    requires |fields| >= 1
    requires forall k | 0 <= k < |fields| :: sep !in fields[k]
    ensures Fields(Join(fields, sep), sep) == fields
    decreases |fields|
  {
    if |fields| == 1 {
      NoSeparatorOneField(fields[0], sep);
    } else {
      JoinFieldsBack(fields[1..], sep);
      FieldsOfSeparated(fields[0], sep, Join(fields[1..], sep));
      assert fields == [fields[0]] + fields[1..];
    }
  }

  /** A string without the separator is one field. */
  lemma {:induction false} NoSeparatorOneField(s: string, sep: char)
    requires sep !in s
    ensures Fields(s, sep) == [s]
    decreases |s|
  {
    if |s| > 0 {
      NoSeparatorOneField(s[1..], sep);
      assert [s[0]] + s[1..] == s;
    }
  }

  /** The longest prefix of `fs` that does not end with an empty string. */
  function DropTrailingEmpty(fs: seq<string>): (r: seq<string>)
    ensures r <= fs
    ensures forall j | |r| <= j < |fs| :: fs[j] == ""
    ensures |r| == 0 || r[|r| - 1] != ""
    decreases |fs|
  {
    if |fs| > 0 && fs[|fs| - 1] == "" then DropTrailingEmpty(fs[..|fs| - 1]) else fs
  }

  /** `s.split(sep)` for a one-character separator that is not a regular
      expression metacharacter: a string without the separator is its own
      only field; otherwise the fields with trailing empty ones dropped. */
  function Split(s: string, sep: char): (r: seq<string>)
    ensures sep !in s ==> r == [s]
    ensures sep in s ==> r <= Fields(s, sep)
    ensures sep in s ==> forall j | |r| <= j < |Fields(s, sep)| :: Fields(s, sep)[j] == ""
    ensures sep in s ==> |r| == 0 || r[|r| - 1] != ""
  {
    if sep !in s then [s] else DropTrailingEmpty(Fields(s, sep))
  }

  /** Splitting never gives more fields than there are separators plus one. */
  lemma SplitCountBound(s: string, sep: char)
    ensures |Split(s, sep)| <= CountChar(s, sep) + 1
  {
    FieldsJoinBack(s, sep);
  }

  /** Splitting a join of separator-free fields whose last one is non-empty
      gives the fields back. */
  lemma SplitJoinBack(fields: seq<string>, sep: char)
    requires |fields| >= 2
    requires forall k | 0 <= k < |fields| :: sep !in fields[k]
    requires fields[|fields| - 1] != ""
    ensures Split(Join(fields, sep), sep) == fields
  {
    var s := Join(fields, sep);
    JoinFieldsBack(fields, sep);
    assert s == fields[0] + [sep] + Join(fields[1..], sep);
    assert s[|fields[0]|] == sep;
  }

  /** Index of the first `c` in `s`, or `|s|` when there is none. */
  function IndexOf(s: string, c: char): nat
    decreases |s|
  {
    if |s| == 0 || s[0] == c then 0 else 1 + IndexOf(s[1..], c)
  }

  lemma {:induction false} IndexOfSeparator(a: string, c: char, b: string)
    requires c !in a
    ensures IndexOf(a + [c] + b, c) == |a|
    decreases |a|
  {
    if |a| > 0 {
      assert (a + [c] + b)[1..] == a[1..] + [c] + b;
      IndexOfSeparator(a[1..], c, b);
    }
  }

  /** Two strings joined around a separator that neither first part holds
      can only be equal if both parts are. */
  lemma SplitAtSeparator(a: string, b: string, a': string, b': string, c: char)
    requires c !in a && c !in a'
    requires a + [c] + b == a' + [c] + b'
    ensures a == a' && b == b'
  {
    var s := a + [c] + b;
    IndexOfSeparator(a, c, b);
    IndexOfSeparator(a', c, b');
    assert a == s[..|a|] == a';
    assert b == s[|a| + 1..] == b';
  }

  /** The decimal digit character for `d`. */
  function Digit(d: nat): (c: char)
    requires d < 10
    ensures '0' <= c <= '9'
  {
    (('0' as int) + d) as char
  }

  /** `Integer.toString(n)` for a natural `n`. */
  function NatToString(n: nat): (r: string)
    ensures |r| >= 1
    ensures forall k | 0 <= k < |r| :: '0' <= r[k] <= '9'
    decreases n
  {
    if n < 10 then [Digit(n)] else NatToString(n / 10) + [Digit(n % 10)]
  }

  /** The value of a string of decimal digits. */
  function DigitsValue(s: string): nat
    requires forall k | 0 <= k < |s| :: '0' <= s[k] <= '9'
    decreases |s|
  {
    if |s| == 0 then 0
    else 10 * DigitsValue(s[..|s| - 1]) + (s[|s| - 1] as int - '0' as int)
  }

  /** Reading the decimal digits back gives the number, so distinct numbers
      have distinct decimal strings. */
  lemma {:induction false} NatToStringReadsBack(n: nat)
    ensures DigitsValue(NatToString(n)) == n
    decreases n
  {
    var r := NatToString(n);
    if n >= 10 {
      NatToStringReadsBack(n / 10);
      assert r[..|r| - 1] == NatToString(n / 10);
    }
  }
}
