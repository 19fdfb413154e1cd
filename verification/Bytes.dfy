/** Byte strings, and the sequence vocabulary the other modules share. */
module Bytes {

  type byte = x: int | 0 <= x < 256

  const NUL: byte := 0
  const NEWLINE: byte := 10

  /** The bytes of a C string literal; only ASCII characters occur. */
  function Ascii(text: string): seq<byte> {
    seq(|text|, i requires 0 <= i < |text| => text[i] as int % 256)
  }

  datatype Option<+T> = None | Some(value: T)

  function Min(a: int, b: int): int {
    if a <= b then a else b
  }

  predicate EndsInNewline(s: seq<byte>) {
    s != [] && s[|s| - 1] == NEWLINE
  }

  /** The pieces joined end to end. */
  function Flatten(pieces: seq<seq<byte>>): seq<byte> {
    if pieces == [] then [] else pieces[0] + Flatten(pieces[1..])
  }

  lemma {:induction false} FlattenConcat(a: seq<seq<byte>>, b: seq<seq<byte>>)
    ensures Flatten(a + b) == Flatten(a) + Flatten(b)
  {
    if a == [] {
      assert a + b == b;
    } else {
      assert (a + b)[0] == a[0] && (a + b)[1..] == a[1..] + b;
      FlattenConcat(a[1..], b);
    }
  }

  lemma FlattenSnoc(a: seq<seq<byte>>, last: seq<byte>)
    ensures Flatten(a + [last]) == Flatten(a) + last
  {
    FlattenConcat(a, [last]);
    assert [last][1..] == [];
  }

  /** Splits a joined string at the boundary before piece `k`. */
  lemma FlattenSplit(pieces: seq<seq<byte>>, k: nat)
    requires k < |pieces|
    ensures Flatten(pieces) == Flatten(pieces[..k]) + pieces[k] + Flatten(pieces[k + 1..])
  {
    var rest := pieces[k..];
    FlattenConcat(pieces[..k], rest);
    hide Flatten;
    assert pieces == pieces[..k] + rest;
    FlattenHead(rest);
    assert rest[1..] == pieces[k + 1..];
  }

  lemma FlattenHead(pieces: seq<seq<byte>>)
    requires pieces != []
    ensures Flatten(pieces) == pieces[0] + Flatten(pieces[1..])
  {
  }

  lemma FlattenOne(piece: seq<byte>)
    ensures Flatten([piece]) == piece
  {
    assert [piece][1..] == [] && piece + [] == piece;
  }

  lemma {:induction false} FlattenBound(pieces: seq<seq<byte>>, limit: nat)
    requires forall i :: 0 <= i < |pieces| ==> |pieces[i]| <= limit
    ensures |Flatten(pieces)| <= |pieces| * limit
  {
    if pieces != [] {
      FlattenBound(pieces[1..], limit);
    }
  }

  /** The last `n` elements, or all of them when there are fewer. */
  function Latest<T>(s: seq<T>, n: nat): seq<T> {
    if |s| <= n then s else s[|s| - n..]
  }

  /** What C's string functions see of `s`: everything before the first NUL. */
  function CString(s: seq<byte>): (r: seq<byte>)
    ensures r <= s
    ensures NUL !in r
    ensures |r| < |s| ==> s[|r|] == NUL
  {
    if s == [] || s[0] == NUL then [] else [s[0]] + CString(s[1..])
  }

  lemma {:induction false} CStringWhole(s: seq<byte>)
    ensures CString(s) == s <==> NUL !in s
  {
    if s != [] && s[0] != NUL {
      CStringWhole(s[1..]);
      assert s == [s[0]] + s[1..];
    }
  }

  /** Bytes after a terminator are invisible to C's string functions. */
  lemma {:induction false} CStringTerminated(s: seq<byte>, rest: seq<byte>)
    ensures CString(s + [NUL] + rest) == CString(s)
  {
    var t := s + [NUL] + rest;
    if s != [] && s[0] != NUL {
      CStringTerminated(s[1..], rest);
      assert t[1..] == s[1..] + [NUL] + rest;
    }
  }

  /** A buffer whose first bytes are `got` and a terminator is, to C, the string `got`. */
  lemma TerminatedPrefix(buffer: seq<byte>, got: seq<byte>)
    requires |got| < |buffer| && buffer[..|got| + 1] == got + [NUL]
    ensures CString(buffer) == CString(got)
  {
    assert buffer == got + [NUL] + buffer[|got| + 1..];
    CStringTerminated(got, buffer[|got| + 1..]);
  }

  lemma SliceExtends(s: seq<byte>, i: nat, j: nat, k: nat)
    requires i <= j <= k <= |s|
    ensures s[i..j] + s[j..k] == s[i..k]
  {
  }
}
