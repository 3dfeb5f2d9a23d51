/**
 * The few string operations of Python's `str` that the guardian's decision
 * logic relies on: `in` (substring), `startswith`, `lower`, `split(':')`, and
 * the character classes used by its three regular expressions.
 */
module Text {

  /** `needle` occurs in `s` starting at index `i`. */
  predicate OccursAt(s: string, needle: string, i: nat) {
    i + |needle| <= |s| && s[i..i + |needle|] == needle
  }

  /** Python's `needle in s` on two strings. */
  predicate Contains(s: string, needle: string) {
    exists i: nat :: i <= |s| && OccursAt(s, needle, i)
  }

  /** Python's `s.startswith(prefix)`. */
  predicate StartsWith(s: string, prefix: string) {
    |prefix| <= |s| && s[..|prefix|] == prefix
  }

  /** Lower-casing of one character, ASCII letters only. */
  function LowerChar(c: char): char {
    if 'A' <= c <= 'Z' then (c as int + 32) as char else c
  }

  /** Python's `s.lower()`, restricted to ASCII letters (see README: enough for the needles used). */
  function AsciiLower(s: string): (r: string)
    ensures |r| == |s|
    ensures forall i :: 0 <= i < |s| ==> r[i] == LowerChar(s[i])
  {
    seq(|s|, i requires 0 <= i < |s| => LowerChar(s[i]))
  }

  /** The characters `str.isspace` accepts, which is also what `\s` matches in a str pattern. */
  predicate IsSpace(c: char) {
    || c == ' '
    || '\t' <= c <= '\r'
    || '\U{1C}' <= c <= '\U{1F}'
    || c == '\U{85}' || c == '\U{A0}' || c == '\U{1680}'
    || '\U{2000}' <= c <= '\U{200A}'
    || c == '\U{2028}' || c == '\U{2029}' || c == '\U{202F}' || c == '\U{205F}' || c == '\U{3000}'
  }

  /** The class `[A-F0-9-]` under case-insensitive matching. */
  predicate IsHexOrDash(c: char) {
    '0' <= c <= '9' || 'A' <= c <= 'F' || 'a' <= c <= 'f' || c == '-'
  }

  /** The inverse of `Split`: the parts glued back together with `sep` between them. */
  function Join(parts: seq<string>, sep: char): string
    requires |parts| >= 1
  {
    if |parts| == 1 then parts[0] else parts[0] + [sep] + Join(parts[1..], sep)
  }

  /**
   * Python's `s.split(sep)` for a one-character separator: the maximal
   * separator-free pieces, empty ones included, so there is always one more
   * piece than there are separators.
   */
  function Split(s: string, sep: char): (parts: seq<string>)
    ensures |parts| >= 1
    decreases |s|
  {
    if |s| == 0 then [""]
    else
      var rest := Split(s[1..], sep);
      if s[0] == sep then [""] + rest
      else [[s[0]] + rest[0]] + rest[1..]
  }

  /** The pieces hold no separator, and joining them back with it gives `s` again. */
  lemma {:induction false} SplitSpec(s: string, sep: char)
    ensures forall i :: 0 <= i < |Split(s, sep)| ==> sep !in Split(s, sep)[i]
    ensures Join(Split(s, sep), sep) == s
    decreases |s|
  {
    if |s| > 0 {
      SplitSpec(s[1..], sep);
      var rest := Split(s[1..], sep);
      if s[0] == sep {
        assert ([""] + rest)[1..] == rest;
        assert Join([""] + rest, sep) == [sep] + Join(rest, sep);
      } else {
        var parts := [[s[0]] + rest[0]] + rest[1..];
        assert parts[1..] == rest[1..];
        assert Join(parts, sep) == [s[0]] + Join(rest, sep) by {
          if |rest| > 1 {
            assert Join(rest, sep) == rest[0] + [sep] + Join(rest[1..], sep);
          }
        }
        forall i | 0 <= i < |parts| ensures sep !in parts[i] {
          if i > 0 {
            assert parts[i] == rest[i];
          }
        }
      }
      assert s == [s[0]] + s[1..];
    }
  }

  /** A string without the separator splits into itself alone. */
  lemma {:induction false} SplitNoSeparator(s: string, sep: char)
    requires sep !in s
    ensures Split(s, sep) == [s]
    decreases |s|
  {
    if |s| > 0 {
      assert sep !in s[1..] by {
        assert forall i :: 0 <= i < |s[1..]| ==> s[1..][i] == s[i + 1];
      }
      SplitNoSeparator(s[1..], sep);
      assert s == [s[0]] + s[1..];
    }
  }

  /**
   * Splitting `head + sep + tail`, where `head` holds no separator, gives
   * `head` followed by the pieces of `tail`.
   */
  lemma {:induction false} SplitAfterHead(head: string, sep: char, tail: string)
    requires sep !in head
    ensures Split(head + [sep] + tail, sep) == [head] + Split(tail, sep)
    decreases |head|
  {
    var s := head + [sep] + tail;
    if |head| == 0 {
      assert s == [sep] + tail;
      assert s[1..] == tail;
    } else {
      assert s[0] == head[0];
      assert s[1..] == head[1..] + [sep] + tail;
      assert sep !in head[1..] by {
        assert forall i :: 0 <= i < |head[1..]| ==> head[1..][i] == head[i + 1];
      }
      SplitAfterHead(head[1..], sep, tail);
      assert [head[0]] + head[1..] == head;
    }
  }

  /** A string holding the separator splits into at least two pieces, so `split(sep)[1]` exists. */
  lemma SplitHasSecond(s: string, sep: char, i: nat)
    requires i < |s| && s[i] == sep
    ensures |Split(s, sep)| >= 2
  {
    SplitSpec(s, sep);
    assert sep in s;
    assert s != Split(s, sep)[0];
  }

  /** The first piece is a prefix of `s`, followed by the separator or by the end of `s`. */
  lemma SplitFirstPiece(s: string, sep: char)
    ensures StartsWith(s, Split(s, sep)[0])
    ensures |Split(s, sep)[0]| == |s| || s[|Split(s, sep)[0]|] == sep
  {
    var parts := Split(s, sep);
    SplitSpec(s, sep);
    if |parts| > 1 {
      assert s == parts[0] + [sep] + Join(parts[1..], sep);
      assert s[..|parts[0]|] == parts[0];
    }
  }

  /**
   * After a separator-free `head` and the separator, the second piece is the
   * first piece of the tail: the tail's text up to its first separator.
   */
  lemma SecondPiece(head: string, sep: char, tail: string)
    requires sep !in head
    ensures |Split(head + [sep] + tail, sep)| >= 2
    ensures Split(head + [sep] + tail, sep)[1] == Split(tail, sep)[0]
    ensures sep !in Split(tail, sep)[0]
    ensures StartsWith(tail, Split(tail, sep)[0])
    ensures |Split(tail, sep)[0]| == |tail| || tail[|Split(tail, sep)[0]|] == sep
  {
    SplitAfterHead(head, sep, tail);
    SplitFirstPiece(tail, sep);
    SplitSpec(tail, sep);
  }

  /**
   * Behind a prefix `p` of `s`, the first piece of the remainder is
   * separator-free, extends the prefix within `s`, and ends at a separator or
   * at the end of `s`.
   */
  lemma FirstPieceAfterPrefix(s: string, p: string, sep: char)
    requires StartsWith(s, p)
    ensures var piece := Split(s[|p|..], sep)[0];
            && sep !in piece
            && StartsWith(s, p + piece)
            && (|p + piece| == |s| || s[|p + piece|] == sep)
  {
    var rest := s[|p|..];
    var piece := Split(rest, sep)[0];
    SplitFirstPiece(rest, sep);
    SplitSpec(rest, sep);
    assert s == p + rest by {
      assert s[..|p|] == p;
    }
    assert rest[..|piece|] == piece;
    assert s[..|p + piece|] == p + piece;
  }
}
