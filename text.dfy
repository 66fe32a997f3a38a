/** String helpers with the semantics of the JavaScript built-ins the pipeline relies on:
    `split`/`join` on a one-character separator, `includes`, `trim`, and `${n}` for integers. */
module Text {

  // ---------------------------------------------------------------------------
  // split and join on a single separator character
  // ---------------------------------------------------------------------------

  /** `s.split(sep)`: the pieces between separators; k separators give k + 1 pieces. */
  function Split(s: string, sep: char): (parts: seq<string>)
    ensures |parts| >= 1
    decreases |s|
  {
    if |s| == 0 then [""]
    else
      var rest := Split(s[1..], sep);
      if s[0] == sep then [""] + rest
      else [[s[0]] + rest[0]] + rest[1..]
  }

  /** `parts.join(sep)`. */
  function Join(parts: seq<string>, sep: char): string
    decreases |parts|
  {
    if |parts| == 0 then ""
    else if |parts| == 1 then parts[0]
    else parts[0] + [sep] + Join(parts[1..], sep)
  }

  /** The last piece of a split: what follows the last separator. */
  function LastPiece(s: string, sep: char): string {
    var parts := Split(s, sep);
    parts[|parts| - 1]
  }

  /** Every piece but the last: the pieces that a separator closed. */
  function ClosedPieces(s: string, sep: char): seq<string> {
    var parts := Split(s, sep);
    parts[..|parts| - 1]
  }

  /** No piece of a split contains the separator. */
  lemma {:induction false} SplitPiecesFree(s: string, sep: char)
    ensures forall i :: 0 <= i < |Split(s, sep)| ==> sep !in Split(s, sep)[i]
    decreases |s|
  {
    if |s| > 0 {
      SplitPiecesFree(s[1..], sep);
      var rest := Split(s[1..], sep);
      if s[0] != sep {
        assert sep !in rest[0];
        assert sep !in [s[0]] + rest[0];
      }
    }
  }

  /** Joining the pieces of a split gives back the string. */
  lemma {:induction false} JoinSplit(s: string, sep: char)
    ensures Join(Split(s, sep), sep) == s
    decreases |s|
  {
    if |s| > 0 {
      JoinSplit(s[1..], sep);
      var rest := Split(s[1..], sep);
      if s[0] == sep {
        assert Split(s, sep) == [""] + rest;
        assert ([""] + rest)[1..] == rest;
      } else {
        var parts := Split(s, sep);
        assert parts == [[s[0]] + rest[0]] + rest[1..];
        if |rest| == 1 {
          assert Join(rest, sep) == rest[0];
        } else {
          assert parts[1..] == rest[1..];
          assert Join(rest, sep) == rest[0] + [sep] + Join(rest[1..], sep);
        }
      }
    }
  }

  /** A string without the separator splits into itself alone. */
  lemma {:induction false} SplitFree(p: string, sep: char)
    requires sep !in p
    ensures Split(p, sep) == [p]
    decreases |p|
  {
    if |p| > 0 {
      assert sep !in p[1..] by {
        forall k | 0 <= k < |p| - 1 ensures p[1..][k] != sep {
          assert p[1..][k] == p[k + 1];
        }
      }
      SplitFree(p[1..], sep);
      assert Split(p, sep) == [[p[0]] + p[1..]] + [p[1..]][1..];
      assert [p[0]] + p[1..] == p;
    }
  }

  /** A separator-free piece followed by a separator is closed off as the first piece. */
  lemma {:induction false} SplitSepPrefix(p: string, t: string, sep: char)
    requires sep !in p
    ensures Split(p + [sep] + t, sep) == [p] + Split(t, sep)
    decreases |p|
  {
    var u := p + [sep] + t;
    if |p| == 0 {
      assert u == [sep] + t;
      assert u[1..] == t;
    } else {
      assert sep !in p[1..] by {
        forall k | 0 <= k < |p| - 1 ensures p[1..][k] != sep {
          assert p[1..][k] == p[k + 1];
        }
      }
      SplitSepPrefix(p[1..], t, sep);
      assert u[1..] == p[1..] + [sep] + t;
      assert u[0] == p[0];
      assert [p[0]] + p[1..] == p;
    }
  }

  /** Splitting is compositional: the pieces already closed in `p` stay closed,
      and only the last (open) piece of `p` is affected by the text `t` appended to it. */
  lemma {:induction false} SplitAppend(p: string, t: string, sep: char)
    ensures Split(p + t, sep) == ClosedPieces(p, sep) + Split(LastPiece(p, sep) + t, sep)
    decreases |p|
  {
    if |p| == 0 {
      assert p + t == t;
    } else {
      assert (p + t)[1..] == p[1..] + t;
      SplitAppend(p[1..], t, sep);
      if p[0] == sep {
        SplitAppendSep(p, t, sep);
      } else {
        SplitAppendChar(p, t, sep);
      }
    }
  }

  /** The step of `SplitAppend` for a string starting with the separator. */
  lemma SplitAppendSep(p: string, t: string, sep: char)
    requires |p| > 0 && p[0] == sep
    requires Split(p[1..] + t, sep) == ClosedPieces(p[1..], sep) + Split(LastPiece(p[1..], sep) + t, sep)
    ensures Split(p + t, sep) == ClosedPieces(p, sep) + Split(LastPiece(p, sep) + t, sep)
  {
    var closed := ClosedPieces(p[1..], sep);
    var rest := Split(LastPiece(p[1..], sep) + t, sep);
    assert Split(p + t, sep) == [""] + Split(p[1..] + t, sep) by {
      assert (p + t)[0] == sep && (p + t)[1..] == p[1..] + t;
      SplitSepHead(p + t, sep);
    }
    assert ClosedPieces(p, sep) == [""] + closed && LastPiece(p, sep) == LastPiece(p[1..], sep) by {
      PiecesAfterSep(p, sep);
    }
    PrependRegroup(Split(p + t, sep), ClosedPieces(p, sep), closed, rest);
  }

  lemma PrependRegroup(whole: seq<string>, head: seq<string>, closed: seq<string>, rest: seq<string>)
    requires whole == [""] + (closed + rest) && head == [""] + closed
    ensures whole == head + rest
  {
  }

  /** A leading separator closes an empty first piece. */
  lemma SplitSepHead(s: string, sep: char)
    requires |s| > 0 && s[0] == sep
    ensures Split(s, sep) == [""] + Split(s[1..], sep)
  {
  }

  lemma PiecesAfterSep(s: string, sep: char)
    requires |s| > 0 && s[0] == sep
    ensures ClosedPieces(s, sep) == [""] + ClosedPieces(s[1..], sep)
    ensures LastPiece(s, sep) == LastPiece(s[1..], sep)
  {
    var S := Split(s[1..], sep);
    SplitSepHead(s, sep);
    assert ([""] + S)[..|S|] == [""] + S[..|S| - 1];
  }

  /** The step of `SplitAppend` for a string starting with another character. */
  lemma SplitAppendChar(p: string, t: string, sep: char)
    requires |p| > 0 && p[0] != sep
    requires Split(p[1..] + t, sep) == ClosedPieces(p[1..], sep) + Split(LastPiece(p[1..], sep) + t, sep)
    ensures Split(p + t, sep) == ClosedPieces(p, sep) + Split(LastPiece(p, sep) + t, sep)
  {
    var S := Split(p[1..], sep);
    var m := |S|;
    var R := Split(p[1..] + t, sep);
    assert (p + t)[1..] == p[1..] + t;
    assert Split(p, sep) == [[p[0]] + S[0]] + S[1..];
    assert Split(p + t, sep) == [[p[0]] + R[0]] + R[1..];
    if m == 1 {
      SplitAppendShort(p, t, sep);
    } else {
      SplitAppendLong(p, t, sep, S, R);
    }
  }

  /** A string without a separator is its own last piece, and no piece is closed. */
  lemma SplitAppendShort(p: string, t: string, sep: char)
    requires |Split(p, sep)| == 1
    ensures Split(p + t, sep) == ClosedPieces(p, sep) + Split(LastPiece(p, sep) + t, sep)
  {
    JoinSplit(p, sep);
    assert LastPiece(p, sep) == p;
    assert ClosedPieces(p, sep) == [];
  }

  lemma SplitAppendLong(p: string, t: string, sep: char, S: seq<string>, R: seq<string>)
    requires |p| > 0 && p[0] != sep
    requires S == Split(p[1..], sep) && |S| > 1
    requires R == Split(p[1..] + t, sep)
    requires R == S[..|S| - 1] + Split(S[|S| - 1] + t, sep)
    requires Split(p, sep) == [[p[0]] + S[0]] + S[1..]
    requires Split(p + t, sep) == [[p[0]] + R[0]] + R[1..]
    ensures Split(p + t, sep) == ClosedPieces(p, sep) + Split(LastPiece(p, sep) + t, sep)
  {
    var m := |S|;
    assert R[0] == S[0];
    assert R[1..] == S[1..m - 1] + Split(S[m - 1] + t, sep);
    var whole := [[p[0]] + S[0]] + S[1..];
    assert whole[1..] == S[1..];
    assert whole[..m - 1] == [whole[0]] + S[1..m - 1];
  }

  /** Splitting a join of separator-free pieces gives the pieces back. */
  lemma {:induction false} SplitJoin(parts: seq<string>, sep: char)
    requires |parts| >= 1
    requires forall i :: 0 <= i < |parts| ==> sep !in parts[i]
    ensures Split(Join(parts, sep), sep) == parts
    decreases |parts|
  {
    if |parts| == 1 {
      SplitFree(parts[0], sep);
    } else {
      var tail := Join(parts[1..], sep);
      SplitJoin(parts[1..], sep);
      assert Join(parts, sep) == parts[0] + [sep] + tail;
      SplitSepPrefix(parts[0], tail, sep);
      assert parts == [parts[0]] + parts[1..];
    }
  }

  // ---------------------------------------------------------------------------
  // includes
  // ---------------------------------------------------------------------------

  /** `t` occurs in `s` starting at index `i`. */
  ghost predicate OccursAt(s: string, t: string, i: int) {
    0 <= i && i + |t| <= |s| && s[i..i + |t|] == t
  }

  /** `s.includes(t)`. */
  function Contains(s: string, t: string): (r: bool)
    ensures r <==> exists i :: OccursAt(s, t, i)
    decreases |s|
  {
    if t <= s then
      assert OccursAt(s, t, 0);
      true
    else if |s| == 0 then
      assert forall i :: !OccursAt(s, t, i);
      false
    else
      var r := Contains(s[1..], t);
      forall i | OccursAt(s[1..], t, i) ensures OccursAt(s, t, i + 1) {
        assert s[1..][i..i + |t|] == s[i + 1..i + 1 + |t|];
      }
      forall i | OccursAt(s, t, i) ensures OccursAt(s[1..], t, i - 1) {
        assert i != 0;
        assert s[1..][i - 1..i - 1 + |t|] == s[i..i + |t|];
      }
      r
  }

  // ---------------------------------------------------------------------------
  // decimal rendering of integers (template-literal interpolation)
  // ---------------------------------------------------------------------------

  predicate IsDigit(c: char) { '0' <= c <= '9' }

  function DigitChar(d: nat): (c: char)
    requires d < 10
    ensures IsDigit(c) && c as int - '0' as int == d
  {
    ('0' as int + d) as char
  }

  /** The decimal digits of `n`, most significant first, without leading zeros. */
  function NatToString(n: nat): (r: string)
    ensures |r| >= 1
    ensures forall k :: 0 <= k < |r| ==> IsDigit(r[k])
    ensures r[0] == '0' ==> n == 0
  {
    if n < 10 then [DigitChar(n)] else NatToString(n / 10) + [DigitChar(n % 10)]
  }

  /** The number a string of decimal digits denotes. */
  function DecimalValue(s: string): nat
    requires forall k :: 0 <= k < |s| ==> IsDigit(s[k])
  {
    if |s| == 0 then 0
    else
      assert IsDigit(s[|s| - 1]);
      DecimalValue(s[..|s| - 1]) * 10 + (s[|s| - 1] as int - '0' as int)
  }

  /** Reading back the rendered digits gives the number: the rendering loses nothing. */
  lemma {:induction false} DecimalRoundTrip(n: nat)
    ensures DecimalValue(NatToString(n)) == n
  {
    if n >= 10 {
      DecimalRoundTrip(n / 10);
      var r := NatToString(n);
      assert r[..|r| - 1] == NatToString(n / 10);
    }
  }

  /** Two numbers render alike only if they are equal. */
  lemma NatToStringInjective(m: nat, n: nat)
    requires NatToString(m) == NatToString(n)
    ensures m == n
  {
    DecimalRoundTrip(m);
    DecimalRoundTrip(n);
  }

  /** `${i}` for an integer. */
  function IntToString(i: int): (r: string)
    ensures |r| >= 1
    ensures forall k :: 0 <= k < |r| ==> IsDigit(r[k]) || r[k] == '-'
  {
    if i < 0 then "-" + NatToString(-i) else NatToString(i)
  }

  // ---------------------------------------------------------------------------
  // trim
  // ---------------------------------------------------------------------------

  /** The characters `String.prototype.trim` removes: ECMAScript WhiteSpace and LineTerminator. */
  predicate IsJsWhitespace(c: char) {
    c == '\t' || c == '\n' || c == '\U{000B}' || c == '\U{000C}' || c == '\r' || c == ' '
    || c == '\U{00A0}' || c == '\U{1680}' || ('\U{2000}' <= c <= '\U{200A}')
    || c == '\U{2028}' || c == '\U{2029}' || c == '\U{202F}' || c == '\U{205F}'
    || c == '\U{3000}' || c == '\U{FEFF}'
  }

  predicate IsBlank(s: string) {
    forall k :: 0 <= k < |s| ==> IsJsWhitespace(s[k])
  }

  function TrimStart(s: string): (t: string)
    ensures |t| <= |s|
    decreases |s|
  {
    if |s| > 0 && IsJsWhitespace(s[0]) then TrimStart(s[1..]) else s
  }

  function TrimEnd(s: string): (t: string)
    ensures |t| <= |s|
    ensures t != "" ==> t[0] == s[0] && !IsJsWhitespace(t[|t| - 1])
    decreases |s|
  {
    if |s| > 0 && IsJsWhitespace(s[|s| - 1]) then TrimEnd(s[..|s| - 1]) else s
  }

  /** `s.trim()`: no longer than `s`, and neither starting nor ending with whitespace. */
  function Trim(s: string): (t: string)
    ensures |t| <= |s|
    ensures t != "" ==> !IsJsWhitespace(t[0]) && !IsJsWhitespace(t[|t| - 1])
  {
    var start := TrimStart(s);
    TrimStartEmpty(s);
    var t := TrimEnd(start);
    assert t != "" ==> t[0] == start[0];
    t
  }

  lemma {:induction false} TrimStartEmpty(s: string)
    ensures TrimStart(s) == "" <==> IsBlank(s)
    ensures TrimStart(s) != "" ==> !IsJsWhitespace(TrimStart(s)[0])
    decreases |s|
  {
    if |s| > 0 && IsJsWhitespace(s[0]) {
      TrimStartEmpty(s[1..]);
      assert IsBlank(s) <==> IsBlank(s[1..]) by {
        if IsBlank(s[1..]) {
          forall k | 0 <= k < |s| ensures IsJsWhitespace(s[k]) {
            if k > 0 { assert s[k] == s[1..][k - 1]; }
          }
        }
        if IsBlank(s) {
          forall k | 0 <= k < |s| - 1 ensures IsJsWhitespace(s[1..][k]) {
            assert s[1..][k] == s[k + 1];
          }
        }
      }
    }
  }

  lemma {:induction false} TrimEndEmpty(s: string)
    ensures TrimEnd(s) == "" <==> IsBlank(s)
    decreases |s|
  {
    if |s| > 0 && IsJsWhitespace(s[|s| - 1]) {
      var s' := s[..|s| - 1];
      TrimEndEmpty(s');
      assert IsBlank(s) <==> IsBlank(s') by {
        if IsBlank(s') {
          forall k | 0 <= k < |s| ensures IsJsWhitespace(s[k]) {
            if k < |s| - 1 { assert s[k] == s'[k]; }
          }
        }
      }
    }
  }

  /** `trim` keeps a first character that is not whitespace, and likewise a last one. */
  lemma TrimKeepsEnds(s: string)
    ensures |s| > 0 && !IsJsWhitespace(s[0]) ==> |Trim(s)| > 0 && Trim(s)[0] == s[0]
    ensures |s| > 0 && !IsJsWhitespace(s[|s| - 1]) ==> |Trim(s)| > 0 && Trim(s)[|Trim(s)| - 1] == s[|s| - 1]
  {
    var start := TrimStart(s);
    TrimStartEmpty(s);
    TrimStartSuffix(s);
    TrimEndEmpty(start);
    if |s| > 0 && !IsJsWhitespace(s[0]) {
      assert start == s;
      assert !IsBlank(s);
    }
    if |s| > 0 && !IsJsWhitespace(s[|s| - 1]) {
      assert !IsBlank(s);
      assert start[|start| - 1] == s[|s| - 1];
      assert TrimEnd(start) == start;
    }
  }

  /** What `TrimStart` leaves is a suffix of its input. */
  lemma {:induction false} TrimStartSuffix(s: string)
    ensures TrimStart(s) == s[|s| - |TrimStart(s)|..]
    decreases |s|
  {
    if |s| > 0 && IsJsWhitespace(s[0]) {
      TrimStartSuffix(s[1..]);
      assert s[1..][|s| - 1 - |TrimStart(s[1..])|..] == s[|s| - |TrimStart(s[1..])|..];
    }
  }

  /** `!line.trim()` holds exactly of the strings made only of whitespace (the empty one included). */
  lemma TrimEmptyIffBlank(s: string)
    ensures Trim(s) == "" <==> IsBlank(s)
  {
    TrimStartEmpty(s);
    TrimEndEmpty(TrimStart(s));
  }
}
