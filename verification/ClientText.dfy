/** What a client's bytes mean: the received message, the seek command, and its numbers. */
module ClientText {
  import opened Bytes

  const COMMA: byte := 44
  const ZERO: byte := 48
  const PLUS: byte := 43
  const MINUS: byte := 45

  /** "AESDCHAR_IOCSEEKTO:" */
  const SEEK_COMMAND: seq<byte> :=
    [65, 69, 83, 68, 67, 72, 65, 82, 95, 73, 79, 67, 83, 69, 69, 75, 84, 79, 58]

  const BUFSIZE: nat := 256
  const TMP_SIZE: nat := 256

  /** What the stack array `tmp_str` holds. */
  type Scratch = s: seq<byte> | |s| == TMP_SIZE witness seq(TMP_SIZE, i => NUL)

  /** The message: chunks up to and including the first that ends in a newline, or all of them. */
  function Received(chunks: seq<seq<byte>>): seq<byte> {
    if chunks == [] then []
    else if EndsInNewline(chunks[0]) then chunks[0]
    else chunks[0] + Received(chunks[1..])
  }

  /** Splitting the same message differently only matters where a chunk happens to end in a newline. */
  lemma {:induction false} ReceivedIsPrefix(chunks: seq<seq<byte>>)
    ensures
      exists k :: 0 <= k <= |chunks|
        && Received(chunks) == Flatten(chunks[..k])
        && (forall i :: 0 <= i < k - 1 ==> !EndsInNewline(chunks[i]))
        && (k < |chunks| ==> k > 0 && EndsInNewline(chunks[k - 1]))
  {
    if chunks == [] {
      assert Received(chunks) == Flatten(chunks[..0]);
    } else if EndsInNewline(chunks[0]) {
      assert chunks[..1][1..] == [];
      assert Received(chunks) == Flatten(chunks[..1]);
    } else {
      ReceivedIsPrefix(chunks[1..]);
      var j :| 0 <= j <= |chunks[1..]|
        && Received(chunks[1..]) == Flatten(chunks[1..][..j])
        && (forall i :: 0 <= i < j - 1 ==> !EndsInNewline(chunks[1..][i]))
        && (j < |chunks[1..]| ==> j > 0 && EndsInNewline(chunks[1..][j - 1]));
      assert chunks[..j + 1][1..] == chunks[1..][..j];
      forall i | 0 <= i < j ensures !EndsInNewline(chunks[i]) {
        if i > 0 {
          assert chunks[i] == chunks[1..][i - 1];
        }
      }
      assert Received(chunks) == Flatten(chunks[..j + 1]);
    }
  }

  /** The bytes `handle_client` counts in its `int`s: all before the chunk that ends in a newline, or all. */
  function Carried(chunks: seq<seq<byte>>): nat {
    if chunks == [] || EndsInNewline(chunks[0]) then 0 else |chunks[0]| + Carried(chunks[1..])
  }

  lemma {:induction false} CarriedIsBeforeNewline(chunks: seq<seq<byte>>, k: nat)
    requires k <= |chunks|
    requires forall i :: 0 <= i < k ==> !EndsInNewline(chunks[i])
    requires k < |chunks| ==> EndsInNewline(chunks[k])
    ensures Carried(chunks) == |Flatten(chunks[..k])|
    ensures Received(chunks) == Flatten(chunks[..k]) + if k < |chunks| then chunks[k] else []
  {
    if k > 0 {
      var rest := chunks[1..];
      CarriedIsBeforeNewline(rest, k - 1);
      assert Received(chunks) == chunks[0] + Received(rest) && Carried(chunks) == |chunks[0]| + Carried(rest);
      FlattenHead(chunks[..k]);
      hide EndsInNewline, Received, Carried, Flatten;
      assert chunks[..k][0] == chunks[0] && chunks[..k][1..] == rest[..k - 1];
    }
  }

  /** `strstr`: the first place `pattern` occurs. */
  function FindFirst(s: seq<byte>, pattern: seq<byte>): (r: Option<nat>)
    ensures r.Some? ==> r.value <= |s| && pattern <= s[r.value..]
  {
    if pattern <= s then Some(0)
    else if s == [] then None
    else
      var rest := FindFirst(s[1..], pattern);
      if rest.None? then None else Some(rest.value + 1)
  }

  /** It is indeed the first, and `None` means there is no occurrence. */
  lemma {:induction false} FindFirstIsFirst(s: seq<byte>, pattern: seq<byte>, i: nat)
    requires i <= |s| && pattern <= s[i..]
    ensures FindFirst(s, pattern).Some? && FindFirst(s, pattern).value <= i
  {
    if i > 0 {
      assert s[1..][i - 1..] == s[i..];
      FindFirstIsFirst(s[1..], pattern, i - 1);
    }
  }

  lemma {:induction false} FindFirstByte(before: seq<byte>, b: byte, after: seq<byte>)
    requires b !in before
    ensures FindFirst(before + [b] + after, [b]) == Some(|before|)
  {
    var s := before + [b] + after;
    if before != [] {
      FindFirstByte(before[1..], b, after);
      assert s[1..] == before[1..] + [b] + after;
      assert s[0] != b;
    }
  }

  // ---------------------------------------------------------------------------------------
  // atoi
  // ---------------------------------------------------------------------------------------

  predicate IsDigit(b: byte) {
    ZERO <= b <= ZERO + 9
  }

  predicate IsSpace(b: byte) {
    b == 32 || 9 <= b <= 13
  }

  predicate FitsInt(v: int) {
    -0x8000_0000 <= v < 0x8000_0000
  }

  /** The digits at the front of `s`, after `acc`; `None` when they run off the end of the array. */
  function ParseDigits(s: seq<byte>, acc: nat): Option<nat> {
    if s == [] then None
    else if IsDigit(s[0]) then ParseDigits(s[1..], 10 * acc + (s[0] - ZERO))
    else Some(acc)
  }

  /** `atoi` on an array; `None` where C leaves it undefined. */
  function Atoi(s: seq<byte>): Option<int> {
    if s == [] then None
    else if IsSpace(s[0]) then Atoi(s[1..])
    else
      var sign := if s[0] == MINUS then -1 else 1;
      var parsed := ParseDigits(if s[0] == MINUS || s[0] == PLUS then s[1..] else s, 0);
      if parsed.None? || !FitsInt(sign * parsed.value) then None else Some(sign * parsed.value)
  }

  /** Conversion of an `int` to `uint32_t`. */
  function ToUint32(v: int): nat {
    v % 0x1_0000_0000
  }

  /** `strncpy(tmp, src, n)` when `src` has no NUL among its first `n` bytes: no terminator is written. */
  function StrNCpy(tmp: seq<byte>, src: seq<byte>): (r: seq<byte>)
    requires |src| <= |tmp|
    ensures |r| == |tmp|
  {
    src + tmp[|src|..]
  }

  /**
   * The two numbers of a seek command, through one scratch array that is never terminated or
   * cleared; `None` where the C code has no defined result.
   */
  function ParseSeek(args: seq<byte>, tmp: Scratch): Option<(nat, nat)>
  {
    var comma := FindFirst(args, [COMMA]);
    if comma.None? || comma.value > TMP_SIZE then None
    else
      var tmp1 := StrNCpy(tmp, args[..comma.value]);
      var rest := args[comma.value + 1..];
      var newline := FindFirst(rest, [NEWLINE]);
      if newline.None? || newline.value > TMP_SIZE then None
      else
        var tmp2 := StrNCpy(tmp1, rest[..newline.value]);
        var x, y := Atoi(tmp1), Atoi(tmp2);
        if x.None? || y.None? then None else Some((ToUint32(x.value), ToUint32(y.value)))
  }

  // ---------------------------------------------------------------------------------------
  // Printing, and when parsing inverts it
  // ---------------------------------------------------------------------------------------

  function Dec(n: nat): (s: seq<byte>)
    ensures s != [] && forall i :: 0 <= i < |s| ==> IsDigit(s[i])
  {
    if n < 10 then [ZERO + n] else Dec(n / 10) + [ZERO + n % 10]
  }

  function SeekMessage(x: nat, y: nat): seq<byte> {
    SEEK_COMMAND + (Dec(x) + [COMMA] + (Dec(y) + [NEWLINE]))
  }

  ghost predicate AllDigits(s: seq<byte>) {
    forall i :: 0 <= i < |s| ==> IsDigit(s[i])
  }

  /** Value of a digit string read after `acc`. */
  function Value(acc: nat, digits: seq<byte>): nat
    requires AllDigits(digits)
    decreases |digits|
  {
    if digits == [] then acc else Value(10 * acc + (digits[0] - ZERO), digits[1..])
  }

  lemma {:induction false} ValueSnoc(acc: nat, digits: seq<byte>, d: byte)
    requires AllDigits(digits) && IsDigit(d)
    ensures AllDigits(digits + [d]) && Value(acc, digits + [d]) == 10 * Value(acc, digits) + (d - ZERO)
    decreases |digits|
  {
    if digits == [] {
      assert [d][1..] == [];
    } else {
      ValueSnoc(10 * acc + (digits[0] - ZERO), digits[1..], d);
      assert (digits + [d])[1..] == digits[1..] + [d];
    }
  }

  lemma {:induction false} DecValue(n: nat)
    ensures Value(0, Dec(n)) == n
  {
    if n < 10 {
      assert Dec(n)[1..] == [];
    } else {
      DecValue(n / 10);
      ValueSnoc(0, Dec(n / 10), ZERO + n % 10);
    }
  }

  lemma {:induction false} ParseDigitsValue(digits: seq<byte>, rest: seq<byte>, acc: nat)
    requires AllDigits(digits) && rest != [] && !IsDigit(rest[0])
    ensures ParseDigits(digits + rest, acc) == Some(Value(acc, digits))
  {
    if digits == [] {
      assert digits + rest == rest;
    } else {
      ParseDigitsValue(digits[1..], rest, 10 * acc + (digits[0] - ZERO));
      assert (digits + rest)[1..] == digits[1..] + rest;
    }
  }

  /** Leftover digits never leave a number as it was, unless everything is zero. */
  lemma {:induction false} ValueUnchangedIff(acc: nat, digits: seq<byte>)
    requires AllDigits(digits) && digits != []
    ensures Value(acc, digits) >= 10 * acc
    ensures Value(acc, digits) == acc
            <==> acc == 0 && forall i :: 0 <= i < |digits| ==> digits[i] == ZERO
    decreases |digits|
  {
    var next := 10 * acc + (digits[0] - ZERO);
    if |digits| == 1 {
      assert digits[1..] == [];
    } else {
      ValueUnchangedIff(next, digits[1..]);
      assert forall i :: 1 <= i < |digits| ==> digits[i] == digits[1..][i - 1];
    }
  }

  lemma {:induction false} ValueSplit(acc: nat, a: seq<byte>, b: seq<byte>)
    requires AllDigits(a) && AllDigits(b)
    ensures AllDigits(a + b) && Value(acc, a + b) == Value(Value(acc, a), b)
    decreases |a|
  {
    if a == [] {
      assert a + b == b;
    } else {
      ValueSplit(10 * acc + (a[0] - ZERO), a[1..], b);
      assert (a + b)[1..] == a[1..] + b;
    }
  }

  function Pow10(k: nat): nat {
    if k == 0 then 1 else 10 * Pow10(k - 1)
  }

  lemma {:induction false} DecLength(n: nat, k: nat)
    requires k >= 1 && n < Pow10(k)
    ensures |Dec(n)| <= k
  {
    if n >= 10 {
      assert Pow10(1) == 10 * Pow10(0);
      DecLength(n / 10, k - 1);
    }
  }

  lemma IntDecLength(n: nat)
    requires FitsInt(n)
    ensures |Dec(n)| <= 10
  {
    assert Pow10(5) == 100000;
    assert Pow10(8) == 1000 * Pow10(5);
    assert Pow10(10) == 100 * Pow10(8);
    DecLength(n, 10);
  }

  /** What `atoi` makes of digits followed by stale digits and then a non-digit. */
  lemma AtoiOfDigits(digits: seq<byte>, rest: seq<byte>)
    requires AllDigits(digits) && digits != [] && rest != [] && !IsDigit(rest[0])
    ensures
      Atoi(digits + rest) == if FitsInt(Value(0, digits)) then Some(Value(0, digits)) else None
  {
    ParseDigitsValue(digits, rest, 0);
    assert (digits + rest)[0] == digits[0];
  }

  /** `atoi` skips white space, takes one sign, and stops at the first non-digit; no digits at all are 0. */
  lemma {:induction false} AtoiReads(spaces: seq<byte>, sign: seq<byte>, digits: seq<byte>, rest: seq<byte>)
    requires forall i :: 0 <= i < |spaces| ==> IsSpace(spaces[i])
    requires sign == [] || sign == [PLUS] || sign == [MINUS]
    requires AllDigits(digits) && rest != [] && !IsDigit(rest[0])
    requires digits == [] && sign == [] ==> !IsSpace(rest[0]) && rest[0] != PLUS && rest[0] != MINUS
    ensures
      var v: int := if sign == [MINUS] then 0 - Value(0, digits) else Value(0, digits);
      Atoi(spaces + (sign + (digits + rest))) == if FitsInt(v) then Some(v) else None
  {
    var s := spaces + (sign + (digits + rest));
    if spaces != [] {
      AtoiReads(spaces[1..], sign, digits, rest);
      assert s[1..] == spaces[1..] + (sign + (digits + rest));
    } else {
      ParseDigitsValue(digits, rest, 0);
      assert s == sign + (digits + rest);
      if sign == [] {
        assert s == digits + rest && s[0] == if digits == [] then rest[0] else digits[0];
      } else {
        assert s[0] == sign[0] && s[1..] == digits + rest;
      }
    }
  }

  lemma {:induction false} DigitsRunOff(digits: seq<byte>, acc: nat)
    requires AllDigits(digits)
    ensures ParseDigits(digits, acc) == None
  {
    if digits != [] {
      DigitsRunOff(digits[1..], 10 * acc + (digits[0] - ZERO));
    }
  }

  /** An array that ends before the number does has no value. */
  lemma {:induction false} AtoiRunsOff(spaces: seq<byte>, sign: seq<byte>, digits: seq<byte>)
    requires forall i :: 0 <= i < |spaces| ==> IsSpace(spaces[i])
    requires sign == [] || sign == [PLUS] || sign == [MINUS]
    requires AllDigits(digits)
    ensures Atoi(spaces + (sign + digits)) == None
  {
    var s := spaces + (sign + digits);
    if spaces != [] {
      AtoiRunsOff(spaces[1..], sign, digits);
      assert s[1..] == spaces[1..] + (sign + digits);
    } else {
      DigitsRunOff(digits, 0);
      assert s == sign + digits;
      if sign == [] {
        assert s == digits;
      } else {
        assert s[0] == sign[0] && s[1..] == digits;
      }
    }
  }

  /** A negative `int` becomes a large `uint32_t`. */
  lemma ToUint32Wraps(v: int)
    requires FitsInt(v)
    ensures ToUint32(v) == if v < 0 then v + 4294967296 else v
  {
  }

  /** The two fields of a seek command, whatever they hold and whatever follows them. */
  lemma ParseSeekReads(first: seq<byte>, second: seq<byte>, rest: seq<byte>, tmp: Scratch)
    requires COMMA !in first && NEWLINE !in second
    ensures
      var parsed := ParseSeek(first + [COMMA] + (second + [NEWLINE] + rest), tmp);
      if |first| > 256 || |second| > 256 then parsed == None
      else
        var tmp1 := first + tmp[|first|..];
        var tmp2 := second + tmp1[|second|..];
        if Atoi(tmp1).None? || Atoi(tmp2).None? then parsed == None
        else parsed == Some((ToUint32(Atoi(tmp1).value), ToUint32(Atoi(tmp2).value)))
  {
    hide Atoi, FindFirst, ToUint32;
    var args := first + [COMMA] + (second + [NEWLINE] + rest);
    FindFirstByte(first, COMMA, second + [NEWLINE] + rest);
    FindFirstByte(second, NEWLINE, rest);
    assert args[..|first|] == first && args[|first| + 1..] == second + [NEWLINE] + rest;
    assert (second + [NEWLINE] + rest)[..|second|] == second;
  }

  /** A seek command without its comma, or without a newline after it, is not parsed. */
  lemma ParseSeekNeedsBoth(args: seq<byte>, first: seq<byte>, second: seq<byte>, tmp: Scratch)
    requires COMMA !in args || (args == first + [COMMA] + second && COMMA !in first && NEWLINE !in second)
    ensures ParseSeek(args, tmp) == None
  {
    hide Atoi, FindFirst, ToUint32;
    if COMMA !in args {
      FindFirstAbsent(args, COMMA);
    } else {
      FindFirstByte(first, COMMA, second);
      assert args[|first| + 1..] == second;
      FindFirstAbsent(second, NEWLINE);
    }
  }

  lemma {:induction false} FindFirstTooShort(s: seq<byte>, pattern: seq<byte>)
    requires |s| < |pattern|
    ensures FindFirst(s, pattern) == None
  {
    if s != [] {
      FindFirstTooShort(s[1..], pattern);
    }
  }

  lemma {:induction false} FindFirstAbsent(s: seq<byte>, b: byte)
    requires b !in s
    ensures FindFirst(s, [b]) == None
  {
    if s != [] {
      assert s[0] != b;
      FindFirstAbsent(s[1..], b);
    }
  }

  /** The bytes the constants stand for. */
  lemma Spelled()
    ensures SEEK_COMMAND == Ascii("AESDCHAR_IOCSEEKTO:")
    ensures [COMMA, NEWLINE, PLUS, MINUS] == Ascii(",\n+-")
    ensures forall b: byte :: IsDigit(b) <==> '0' as int <= b <= '9' as int
    ensures forall b: byte :: IsSpace(b) <==> b == ' ' as int || '\t' as int <= b <= '\r' as int
    ensures forall v :: FitsInt(v) <==> -2147483648 <= v <= 2147483647
    ensures SeekMessage(1, 2) == Ascii("AESDCHAR_IOCSEEKTO:1,2\n")
  {
  }

  /** Does what the first number left in the scratch array change the second one? */
  predicate SecondNumberSurvives(x: nat, y: nat) {
    || |Dec(y)| >= |Dec(x)|
    || (y == 0 && forall i :: 1 <= i < |Dec(x)| ==> Dec(x)[i] == ZERO)
  }

  lemma SecondAtoi(x: nat, y: nat, tmp: Scratch)
    requires FitsInt(x) && FitsInt(y)
    requires forall i :: 0 <= i < |tmp| ==> !IsDigit(tmp[i])
    requires |Dec(x)| <= 10 && |Dec(y)| <= 10
    ensures Atoi(StrNCpy(StrNCpy(tmp, Dec(x)), Dec(y))) == Some(y) <==> SecondNumberSurvives(x, y)
  {
    var dx, dy := Dec(x), Dec(y);
    var tmp2 := StrNCpy(StrNCpy(tmp, dx), dy);
    DecValue(y);
    hide Dec, Atoi, Value;
    if |dy| >= |dx| {
      var rest := tmp[|dy|..];
      assert tmp2 == dy + rest;
      AtoiOfDigits(dy, rest);
    } else {
      var stale, rest := dx[|dy|..], tmp[|dx|..];
      assert tmp2 == (dy + stale) + rest;
      ValueSplit(0, dy, stale);
      AtoiOfDigits(dy + stale, rest);
      ValueUnchangedIff(y, stale);
      if y == 0 {
        OneDigit(0);
        assert forall i :: 1 <= i < |dx| ==> dx[i] == stale[i - 1];
      }
    }
  }

  /** Where the parser finds the pieces of a printed seek command. */
  lemma SeekMessageFields(x: nat, y: nat)
    ensures FindFirst(SeekMessage(x, y), SEEK_COMMAND) == Some(0)
    ensures
      var args := SeekMessage(x, y)[|SEEK_COMMAND|..];
      && FindFirst(args, [COMMA]) == Some(|Dec(x)|) && args[..|Dec(x)|] == Dec(x)
      && args[|Dec(x)| + 1..] == Dec(y) + [NEWLINE]
    ensures FindFirst(Dec(y) + [NEWLINE], [NEWLINE]) == Some(|Dec(y)|)
  {
    var args := SeekMessage(x, y)[|SEEK_COMMAND|..];
    assert args == Dec(x) + [COMMA] + (Dec(y) + [NEWLINE]);
    FindFirstByte(Dec(x), COMMA, Dec(y) + [NEWLINE]);
    FindFirstByte(Dec(y), NEWLINE, []);
    assert Dec(y) + [NEWLINE] + [] == Dec(y) + [NEWLINE];
  }

  /**
   * The parser inverts the printer exactly when the digits the first number left behind do not
   * reach past the second: always for a one-digit command, and not for 12,5.
   */
  lemma ParseInvertsPrintIff(x: nat, y: nat, tmp: Scratch)
    requires FitsInt(x) && FitsInt(y)
    requires forall i :: 0 <= i < |tmp| ==> !IsDigit(tmp[i])
    ensures
      ParseSeek(SeekMessage(x, y)[|SEEK_COMMAND|..], tmp) == Some((x, y)) <==> SecondNumberSurvives(x, y)
    ensures x < 10 ==> SecondNumberSurvives(x, y)
  {
    hide Dec, Atoi, FindFirst, Value;
    IntDecLength(x);
    IntDecLength(y);
    SeekMessageFields(x, y);
    var tmp1 := StrNCpy(tmp, Dec(x));
    assert tmp1 == Dec(x) + tmp[|Dec(x)|..];
    DecValue(x);
    AtoiOfDigits(Dec(x), tmp[|Dec(x)|..]);
    SecondAtoi(x, y, tmp);
    assert (Dec(y) + [NEWLINE])[..|Dec(y)|] == Dec(y);
    AtoiIsInt(StrNCpy(tmp1, Dec(y)));
    if x < 10 {
      OneDigit(x);
    }
  }

  lemma OneDigit(x: nat)
    requires x < 10
    ensures |Dec(x)| == 1
  {
  }

  lemma {:induction false} AtoiIsInt(s: seq<byte>)
    ensures Atoi(s).Some? ==> FitsInt(Atoi(s).value)
  {
    if s != [] && IsSpace(s[0]) {
      AtoiIsInt(s[1..]);
    }
  }
}
