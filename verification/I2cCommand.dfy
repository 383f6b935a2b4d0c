/** The command parser and the hex printer of `i2c_setting.cpp`. */
module I2cCommand {
  import opened Common

  const ARG_MAX_NUM: nat := 35
  const NUL: char := '\0'

  const REQ_NONE: nat := 0

  /** The requests by number, and what each command begins with. */
  function Prefix(req: nat): string
    requires 1 <= req <= 4
  {
    if req == 1 then "Wr:" else if req == 2 then "Rd:" else if req == 3 then "WrNoP:" else "RdNoP:"
  }

  predicate Begins(s: string, p: string) { |p| <= |s| && s[..|p|] == p }

  function Request(s: string): (req: nat)
    ensures req <= 4
    ensures req != REQ_NONE ==> Begins(s, Prefix(req))
  {
    if Begins(s, "Wr:") then 1
    else if Begins(s, "Rd:") then 2
    else if Begins(s, "WrNoP:") then 3
    else if Begins(s, "RdNoP:") then 4
    else REQ_NONE
  }

  /** What follows the prefix. */
  function Payload(s: string): string
    requires Request(s) != REQ_NONE
  {
    s[|Prefix(Request(s))|..]
  }

  // ----- hex digits

  predicate IsHex(c: char) { '0' <= c <= '9' || 'A' <= c <= 'F' || 'a' <= c <= 'f' }

  function Value(c: char): (v: nat)
    requires IsHex(c)
    ensures v < 16
  {
    if c <= '9' then c as int - 0x30 else if c <= 'F' then c as int - 0x37 else c as int - 0x57
  }

  function HexChar(d: nat): (c: char)
    requires d < 16
    ensures IsHex(c) && Value(c) == d
  {
    if d < 10 then (0x30 + d) as char else (0x37 + d) as char
  }

  const CAPITALS := "0123456789ABCDEF"
  const SMALL := "0123456789abcdef"

  /** The hex digits are those in a row of sixteen, in either case, and their values are their places in it. */
  lemma DigitRow(d: nat)
    requires d < 16
    ensures IsHex(CAPITALS[d]) && Value(CAPITALS[d]) == d && HexChar(d) == CAPITALS[d]
    ensures IsHex(SMALL[d]) && Value(SMALL[d]) == d
    ensures forall c :: IsHex(c) ==> c == CAPITALS[Value(c)] || c == SMALL[Value(c)]
  {
  }

  /** The values of the hex digits of a text, in order; all else is skipped. */
  function HexDigits(s: string): (ds: seq<nat>)
    ensures |ds| <= |s| && forall i :: 0 <= i < |ds| ==> ds[i] < 16
  {
    if s == [] then []
    else
      var c := s[|s| - 1];
      HexDigits(s[..|s| - 1]) + (if IsHex(c) then [Value(c)] else [])
  }

  lemma {:induction false} HexDigitsAppend(s: string, t: string)
    ensures HexDigits(s + t) == HexDigits(s) + HexDigits(t)
    decreases |t|
  {
    if t == [] {
      assert s + t == s;
    } else {
      assert (s + t)[..|s| + |t| - 1] == s + t[..|t| - 1];
      HexDigitsAppend(s, t[..|t| - 1]);
    }
  }

  // ----- what a command means

  /** Digits taken two at a time, the high one first; a single last one is a high one. */
  function Bytes(ds: seq<nat>): seq<nat> {
    seq((|ds| + 1) / 2, i requires 0 <= i < (|ds| + 1) / 2 =>
      16 * ds[2 * i] + (if 2 * i + 1 < |ds| then ds[2 * i + 1] else 0))
  }

  /** The digits that the buffer takes: two for every place but the first. */
  const MAX_DIGITS: nat := 68

  function Taken(ds: seq<nat>): (r: seq<nat>)
    ensures |r| <= MAX_DIGITS && |r| <= |ds|
  {
    if |ds| <= MAX_DIGITS then ds else ds[..MAX_DIGITS]
  }

  /** A buffer with its request and the bytes of some digits. */
  function Filled(req: nat, ds: seq<nat>): (b: seq<nat>)
    requires |ds| <= MAX_DIGITS
    ensures |b| == ARG_MAX_NUM
  {
    [req] + Bytes(ds) + Zeros(ARG_MAX_NUM - 1 - |Bytes(ds)|)
  }

  /** The result and the argument buffer for the digits of a request; completing a 34th byte refuses it. */
  function Outcome(req: nat, ds: seq<nat>): (r: (nat, seq<nat>))
    ensures |r.1| == ARG_MAX_NUM
  {
    (if |ds| >= MAX_DIGITS then REQ_NONE else req, Filled(req, Taken(ds)))
  }

  /** The result and the argument buffer of a command. */
  function Parsed(s: string): (r: (nat, seq<nat>))
    ensures |r.1| == ARG_MAX_NUM
  {
    var req := Request(s);
    if req == REQ_NONE then (REQ_NONE, Zeros(ARG_MAX_NUM)) else Outcome(req, HexDigits(Payload(s)))
  }

  // ----- printing

  function Two(b: nat): string
    requires b < 256
  {
    [HexChar(b / 16), HexChar(b % 16)]
  }

  predicate IsBytes(bs: seq<nat>) { forall i :: 0 <= i < |bs| ==> bs[i] < 256 }

  /** `char_to_16char`: two digits for each byte, with commas between. */
  function Printed(bs: seq<nat>): (s: string)
    requires IsBytes(bs)
    ensures |s| == (if bs == [] then 0 else 3 * |bs| - 1)
  {
    if bs == [] then ""
    else if |bs| == 1 then Two(bs[0])
    else Printed(bs[..|bs| - 1]) + "," + Two(bs[|bs| - 1])
  }

  function Nibbles(bs: seq<nat>): (ds: seq<nat>)
    ensures |ds| == 2 * |bs|
  {
    if bs == [] then [] else Nibbles(bs[..|bs| - 1]) + [bs[|bs| - 1] / 16, bs[|bs| - 1] % 16]
  }

  lemma TwoDigits(b: nat)
    requires b < 256
    ensures HexDigits(Two(b)) == [b / 16, b % 16]
  {
    var t := Two(b);
    assert t[..1] == [HexChar(b / 16)] && t[..1][..0] == [];
    assert HexDigits([]) == [];
    assert HexDigits(t[..1]) == [b / 16];
  }

  lemma MoreDigitsPrinted(s: string, b: nat)
    requires b < 256
    ensures HexDigits(s + "," + Two(b)) == HexDigits(s) + [b / 16, b % 16]
  {
    CommaHasNone();
    TwoDigits(b);
    HexDigitsAppend(s, ",");
    HexDigitsAppend(s + ",", Two(b));
  }

  /** The printed text has the bytes' digits, in order, and no others. */
  lemma {:induction false} PrintedDigits(bs: seq<nat>)
    requires IsBytes(bs)
    ensures HexDigits(Printed(bs)) == Nibbles(bs)
    decreases |bs|
  {
    if |bs| == 1 {
      TwoDigits(bs[0]);
      assert Nibbles(bs[..0]) == [];
    } else if |bs| > 1 {
      var n := |bs| - 1;
      PrintedDigits(bs[..n]);
      MoreDigitsPrinted(Printed(bs[..n]), bs[n]);
    }
  }

  lemma CommaHasNone()
    ensures HexDigits(",") == []
  {
  }

  lemma {:induction false} NibblesAt(bs: seq<nat>, i: nat)
    requires i < |bs|
    ensures Nibbles(bs)[2 * i] == bs[i] / 16 && Nibbles(bs)[2 * i + 1] == bs[i] % 16
    decreases |bs|
  {
    if i < |bs| - 1 {
      NibblesAt(bs[..|bs| - 1], i);
    }
  }

  lemma BytesOfNibbles(bs: seq<nat>)
    ensures Bytes(Nibbles(bs)) == bs
  {
    forall i | 0 <= i < |bs|
      ensures Bytes(Nibbles(bs))[i] == bs[i]
    {
      NibblesAt(bs, i);
    }
  }

  lemma PrefixParses(req: nat, s: string)
    requires 1 <= req <= 4
    ensures Prefix(req) == ["Wr:", "Rd:", "WrNoP:", "RdNoP:"][req - 1]
    ensures Request(Prefix(req) + s) == req && Payload(Prefix(req) + s) == s
  {
    var p := Prefix(req);
    var t := p + s;
    assert t[..|p|] == p && t[|p|..] == s;
    assert t[0] == p[0] && t[1] == p[1] && t[2] == p[2];
    assert Begins(t, "Wr:") ==> t[0] == t[..3][0] && t[2] == t[..3][2];
    assert Begins(t, "Rd:") ==> t[0] == t[..3][0] && t[2] == t[..3][2];
    assert Begins(t, "WrNoP:") ==> t[0] == t[..6][0];
  }

  /** Anything else is no command. */
  lemma OthersAreRefused(s: string)
    requires !Begins(s, "Wr:") && !Begins(s, "Rd:") && !Begins(s, "WrNoP:") && !Begins(s, "RdNoP:")
    ensures Parsed(s) == (REQ_NONE, Zeros(ARG_MAX_NUM))
  {
  }

  lemma PayloadDecides(req: nat, s: string)
    requires 1 <= req <= 4
    ensures Parsed(Prefix(req) + s) == Outcome(req, HexDigits(s))
  {
    PrefixParses(req, s);
  }

  lemma OutcomeOfTaken(req: nat, ds: seq<nat>)
    ensures Outcome(req, ds) == Outcome(req, Taken(ds))
  {
  }

  lemma FilledBytes(req: nat, bs: seq<nat>)
    requires |bs| <= 33
    ensures |Nibbles(bs)| < MAX_DIGITS && Filled(req, Taken(Nibbles(bs))) == [req] + bs + Zeros(34 - |bs|)
  {
    BytesOfNibbles(bs);
  }

  /** What is printed after a prefix is parsed back to the same request and the same bytes, for up to 33 bytes. */
  lemma RoundTrip(req: nat, bs: seq<nat>)
    requires 1 <= req <= 4 && IsBytes(bs) && |bs| <= 33
    ensures Parsed(Prefix(req) + Printed(bs)) == (req, [req] + bs + Zeros(34 - |bs|))
  {
    PayloadDecides(req, Printed(bs));
    PrintedDigits(bs);
    FilledBytes(req, bs);
  }

  /** From the 34th byte on a command is refused. */
  lemma TooLong(req: nat, bs: seq<nat>)
    requires 1 <= req <= 4 && IsBytes(bs) && |bs| >= 34
    ensures Parsed(Prefix(req) + Printed(bs)).0 == REQ_NONE
  {
    PayloadDecides(req, Printed(bs));
    PrintedDigits(bs);
  }

  /** After the prefix only the hex digits count, and of those no more than fill the buffer. */
  lemma OnlyDigitsCount(req: nat, s: string, t: string)
    requires 1 <= req <= 4 && Taken(HexDigits(s)) == Taken(HexDigits(t))
    ensures Parsed(Prefix(req) + s) == Parsed(Prefix(req) + t)
  {
    PayloadDecides(req, s);
    PayloadDecides(req, t);
    OutcomeOfTaken(req, HexDigits(s));
    OutcomeOfTaken(req, HexDigits(t));
  }

  /** A digit left over at the end is a high one: it counts as if a 0 came after it. */
  lemma LastDigitIsHigh(req: nat, s: string)
    requires 1 <= req <= 4 && |HexDigits(s)| % 2 == 1 && |HexDigits(s)| < MAX_DIGITS - 1
    ensures Parsed(Prefix(req) + s) == Parsed(Prefix(req) + (s + "0"))
  {
    PayloadDecides(req, s);
    PayloadDecides(req, s + "0");
    HexDigitsAppend(s, "0");
    ZeroDigit();
    OddBytes(req, HexDigits(s), HexDigits(s) + [0]);
  }

  lemma ZeroDigit()
    ensures HexDigits("0") == [0]
  {
    assert HexDigits("0") == HexDigits("0"[..0]) + [0];
  }

  lemma OddBytes(req: nat, ds: seq<nat>, more: seq<nat>)
    requires |ds| % 2 == 1 && |ds| < MAX_DIGITS - 1 && more == ds + [0]
    ensures Outcome(req, more) == Outcome(req, ds)
  {
    var a, b := Bytes(ds), Bytes(more);
    forall i | 0 <= i < |a|
      ensures a[i] == b[i]
    {
    }
    assert a == b && Taken(ds) == ds && Taken(more) == more;
  }

  /** Byte `i` is printed as its two digits, and a comma before the next one. */
  lemma {:induction false} PrintedAt(bs: seq<nat>, i: nat)
    requires IsBytes(bs) && i < |bs|
    ensures Printed(bs)[3 * i] == CAPITALS[bs[i] / 16] && Printed(bs)[3 * i + 1] == CAPITALS[bs[i] % 16]
    ensures i < |bs| - 1 ==> Printed(bs)[3 * i + 2] == ','
    decreases |bs|
  {
    DigitRow(bs[i] / 16);
    DigitRow(bs[i] % 16);
    if i < |bs| - 1 {
      PrintedAt(bs[..|bs| - 1], i);
    }
  }

  // ----- the loops

  lemma MovedUp(sum: nat, r: nat)
    requires sum < 272 && r == sum % 256
    ensures r * 16 % 256 == sum * 16 % 256
  {
    if sum >= 256 {
      assert r == sum - 256;
    }
  }

  /** `str_to_hex`: adds a digit to a place of the buffer, an 8-bit one, and moves it up if it is the first. */
  method StrToHex(src: char, dest: nat, cnt: nat) returns (ok: bool, r: nat)
    requires dest < 256
    ensures ok == IsHex(src)
    ensures r == if !ok then dest else (dest + Value(src)) * (if cnt == 0 then 16 else 1) % 256
  {
    ok, r := true, dest;
    var tmp := 0;
    if '0' <= src <= '9' {
      tmp := 0x30;
    } else if 'A' <= src <= 'F' {
      tmp := 0x37;
    } else if 'a' <= src <= 'f' {
      tmp := 0x57;
    } else {
      ok := false;
    }
    if ok {
      r := (r + src as int - tmp) % 256;
      if cnt == 0 {
        MovedUp(dest + Value(src), r);
        r := r * 16 % 256;
      }
    }
  }

  /** One more digit of the payload in the buffer. */
  lemma DigitStored(req: nat, ds: seq<nat>, d: nat)
    requires |ds| < MAX_DIGITS && d < 16 && forall i :: 0 <= i < |ds| ==> ds[i] < 16
    ensures var b, k := Filled(req, ds), 1 + |ds| / 2;
            && b[k] < 256
            && Filled(req, ds + [d]) == b[k := (b[k] + d) * (if |ds| % 2 == 0 then 16 else 1) % 256]
  {
    var b, k, c := Filled(req, ds), 1 + |ds| / 2, Filled(req, ds + [d]);
    forall j | 0 <= j < ARG_MAX_NUM && j != k
      ensures c[j] == b[j]
    {
      if 1 <= j < k {
        assert b[j] == Bytes(ds)[j - 1] && c[j] == Bytes(ds + [d])[j - 1];
      }
    }
  }

  /** `analysis_cmd`, on a zeroed buffer. */
  method AnalysisCmd(buf: string, args: array<nat>) returns (ret: nat)
    requires args.Length == ARG_MAX_NUM && args[..] == Zeros(ARG_MAX_NUM) && NUL !in buf
    modifies args
    ensures (ret, args[..]) == Parsed(buf)
  {
    ret := Request(buf);
    if ret != REQ_NONE {
      var payload := Payload(buf);
      args[0] := ret;
      var complete := ReadDigits(payload, ret, args);
      if !complete {
        ret := REQ_NONE;
      }
    }
  }

  lemma EmptyFilled(req: nat)
    ensures Filled(req, []) == Zeros(ARG_MAX_NUM)[0 := req]
  {
  }

  /** One character of the payload. */
  method ReadChar(c: char, argCnt: nat, byteCnt: nat, args: array<nat>, ghost req: nat, ghost ds: seq<nat>)
    returns (a: nat, b: nat, full: bool)
    requires args.Length == ARG_MAX_NUM && Counts(argCnt, byteCnt, ds)
    requires args[..] == Filled(req, ds)
    modifies args
    ensures var next := Next(ds, c);
            args[..] == Filled(req, next) && full == (|next| == MAX_DIGITS) && (!full ==> Counts(a, b, next))
  {
    a, b, full := argCnt, byteCnt, false;
    if IsHex(c) {
      DigitStored(req, ds, Value(c));
    }
    var ok, r := StrToHex(c, args[argCnt], byteCnt);
    args[argCnt] := r;
    if ok {
      b := b + 1;
      if b >= 2 {
        if a + 1 >= ARG_MAX_NUM {
          full := true;
        } else {
          a := a + 1;
          b := 0;
        }
      }
    }
  }

  /** Where the loop stands after the digits `ds`. */
  ghost predicate Counts(argCnt: nat, byteCnt: nat, ds: seq<nat>) {
    && |ds| < MAX_DIGITS && argCnt == 1 + |ds| / 2 && byteCnt == |ds| % 2
    && forall i :: 0 <= i < |ds| ==> ds[i] < 16
  }

  function Next(ds: seq<nat>, c: char): (r: seq<nat>)
    requires |ds| < MAX_DIGITS
    ensures |r| <= MAX_DIGITS
  {
    if IsHex(c) then ds + [Value(c)] else ds
  }

  lemma DigitsNext(s: string, i: nat)
    requires i < |s| && |HexDigits(s[..i])| < MAX_DIGITS
    ensures HexDigits(s[..i + 1]) == Next(HexDigits(s[..i]), s[i])
  {
    assert s[..i + 1][..i] == s[..i];
  }

  lemma DigitsMonotone(s: string, i: nat)
    requires i <= |s|
    ensures HexDigits(s[..i]) <= HexDigits(s)
  {
    assert s == s[..i] + s[i..];
    MoreDigits(s[..i], s[i..]);
  }

  lemma MoreDigits(a: string, b: string)
    ensures HexDigits(a) <= HexDigits(a + b)
  {
    HexDigitsAppend(a, b);
  }

  /** The loop stops at a full buffer with the digits that fit. */
  lemma Stopped(s: string, i: nat, ds: seq<nat>)
    requires i <= |s| && ds == HexDigits(s[..i]) && |ds| <= MAX_DIGITS
    requires i == |s| || |ds| == MAX_DIGITS
    ensures ds == Taken(HexDigits(s)) && (|ds| == MAX_DIGITS <==> |HexDigits(s)| >= MAX_DIGITS)
  {
    DigitsMonotone(s, i);
    assert i == |s| ==> s[..i] == s;
  }

  /** The loop of `analysis_cmd`. */
  method ReadDigits(payload: string, ghost req: nat, args: array<nat>) returns (complete: bool)
    requires args.Length == ARG_MAX_NUM && args[..] == Zeros(ARG_MAX_NUM)[0 := req]
    modifies args
    ensures args[..] == Filled(req, Taken(HexDigits(payload)))
    ensures complete == (|HexDigits(payload)| < MAX_DIGITS)
  {
    var argCnt, byteCnt, full, i := 1, 0, false, 0;
    ghost var ds: seq<nat> := [];
    EmptyFilled(req);
    while i < |payload| && !full
      invariant i <= |payload| && |ds| <= MAX_DIGITS && ds == HexDigits(payload[..i])
      invariant full == (|ds| == MAX_DIGITS) && (!full ==> Counts(argCnt, byteCnt, ds))
      invariant args[..] == Filled(req, ds)
      decreases |payload| - i
    {
      DigitsNext(payload, i);
      argCnt, byteCnt, full := ReadChar(payload[i], argCnt, byteCnt, args, req, ds);
      ds := Next(ds, payload[i]);
      i := i + 1;
    }
    Stopped(payload, i, ds);
    return !full;
  }

  // ----- the printer

  /** The text printed for `bs`, with its NUL, is in `buf` from `at` on, and the rest is as in `was`. */
  ghost predicate Holds(buf: seq<char>, was: seq<char>, at: nat, text: string) {
    |buf| == |was| && at + |text| <= |buf| && buf == was[..at] + text + was[at + |text|..]
  }

  /** One byte, as two digits. */
  method PutTwo(dest: array<char>, p: nat, b: nat, ghost was: seq<char>, ghost at: nat, ghost text: string)
    requires p == at + |text| && p + 2 <= dest.Length && b < 256 && Holds(dest[..], was, at, text)
    modifies dest
    ensures Holds(dest[..], was, at, text + Two(b))
  {
    var table := "0123456789ABCDEF";
    dest[p] := table[b / 16];
    dest[p + 1] := table[b % 16];
  }

  method PutChar(dest: array<char>, p: nat, c: char, ghost was: seq<char>, ghost at: nat, ghost text: string)
    requires p == at + |text| && p < dest.Length && Holds(dest[..], was, at, text)
    modifies dest
    ensures Holds(dest[..], was, at, text + [c])
  {
    dest[p] := c;
  }

  /** What has been printed before byte `i`. */
  function Head(bs: seq<nat>, i: nat): (s: string)
    requires IsBytes(bs) && i <= |bs|
    ensures |s| == 3 * i
  {
    if i == 0 then "" else Printed(bs[..i]) + ","
  }

  lemma HeadNext(bs: seq<nat>, i: nat)
    requires IsBytes(bs) && i < |bs|
    ensures Head(bs, i) + Two(bs[i]) == Printed(bs[..i + 1])
  {
    assert bs[..i + 1][..i] == bs[..i];
  }

  /** The digits of byte `i`. */
  method PutByte(dest: array<char>, p: nat, src: seq<nat>, i: nat, ghost was: seq<char>, ghost at: nat)
    requires IsBytes(src) && i < |src| && p == at + 3 * i && at + 3 * |src| <= dest.Length
    requires Holds(dest[..], was, at, Head(src, i))
    modifies dest
    ensures Holds(dest[..], was, at, Printed(src[..i + 1]))
  {
    HeadNext(src, i);
    PutTwo(dest, p, src[i], was, at, Head(src, i));
  }

  /** `char_to_16char`, for at least one byte and room for three characters each. */
  method CharTo16Char(dest: array<char>, at: nat, src: seq<nat>)
    requires |src| >= 1 && IsBytes(src) && at + 3 * |src| <= dest.Length
    modifies dest
    ensures Holds(dest[..], old(dest[..]), at, Printed(src) + [NUL])
  {
    ghost var was := dest[..];
    var i, length := 0, |src|;
    var p := at;
    while true
      invariant i < |src| && length == |src| - i && p == at + 3 * i
      invariant Holds(dest[..], was, at, Head(src, i))
      decreases length
    {
      PutByte(dest, p, src, i, was, at);
      p := p + 2;
      i := i + 1;
      length := length - 1;
      if length == 0 {
        break;
      }
      PutChar(dest, p, ',', was, at, Printed(src[..i]));
      p := p + 1;
    }
    assert src[..i] == src;
    PutChar(dest, p, NUL, was, at, Printed(src));
  }
}
