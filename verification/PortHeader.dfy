/**
 * The header that names the port on a proxied stream: the server prints it as decimal
 * and a newline, the client takes one Read, trims, parses, and forwards the rest.
 */
module PortHeader {
  import opened Bytes
  import opened Stream

  const NEWLINE: byte := 10
  const MINUS: byte := 45
  const PLUS: byte := 43
  const MAX_INT := 0x7FFF_FFFF_FFFF_FFFF

  // ----- decimal text ---------------------------------------------------------------

  function Digits(n: nat): (r: seq<byte>)
    ensures |r| >= 1
  {
    if n < 10 then [48 + n] else Digits(n / 10) + [48 + n % 10]
  }

  predicate IsDigit(b: byte) {
    48 <= b <= 57
  }

  predicate AllDigits(s: seq<byte>) {
    forall i :: 0 <= i < |s| ==> IsDigit(s[i])
  }

  function ValueOf(s: seq<byte>): int {
    if s == [] then 0 else 10 * ValueOf(s[..|s| - 1]) + s[|s| - 1] as int - 48
  }

  lemma {:induction false} DigitsRead(n: nat)
    ensures AllDigits(Digits(n)) && ValueOf(Digits(n)) == n
  {
    if n >= 10 {
      DigitsRead(n / 10);
      assert Digits(n)[..|Digits(n)| - 1] == Digits(n / 10);
    }
  }

  function Pow10(k: nat): nat {
    if k == 0 then 1 else 10 * Pow10(k - 1)
  }

  /** n divided by ten k times. */
  function Tenths(n: nat, k: nat): nat {
    if k == 0 then n else Tenths(n / 10, k - 1)
  }

  /** The k-th digit from the end is that of n divided by ten k times, most significant first. */
  lemma {:induction false} DigitAt(n: nat, k: nat)
    requires k < |Digits(n)|
    ensures Digits(n)[|Digits(n)| - 1 - k] == "0123456789"[Tenths(n, k) % 10] as int
  {
    if k > 0 {
      DigitAt(n / 10, k - 1);
    }
  }

  /** There are as many digits as the number needs: no zero in front. */
  lemma {:induction false} DigitsNeeded(n: nat)
    ensures n < Pow10(|Digits(n)|)
    ensures |Digits(n)| > 1 ==> n >= Pow10(|Digits(n)| - 1)
  {
    if n >= 10 {
      DigitsNeeded(n / 10);
    }
  }

  /** The %d verb. */
  function Print(port: int): seq<byte> {
    if port < 0 then [MINUS] + Digits(-port) else Digits(port)
  }

  function Header(port: int): seq<byte> {
    Print(port) + [NEWLINE]
  }

  // ----- white space ------------------------------------------------------------------

  /** White space of one byte. */
  predicate IsSpace(b: byte) {
    9 <= b <= 13 || b == 32
  }

  /** The UTF-8 encodings of U+0085 and U+00A0. */
  predicate IsSpace2(a: byte, b: byte) {
    a == 0xC2 && (b == 0x85 || b == 0xA0)
  }

  /** Those of U+1680, U+2000 to U+200A, U+2028, U+2029, U+202F, U+205F and U+3000. */
  predicate IsSpace3(a: byte, b: byte, c: byte) {
    || (a == 0xE1 && b == 0x9A && c == 0x80)
    || (a == 0xE2 && b == 0x80 && (0x80 <= c <= 0x8A || c == 0xA8 || c == 0xA9 || c == 0xAF))
    || (a == 0xE2 && b == 0x81 && c == 0x9F)
    || (a == 0xE3 && b == 0x80 && c == 0x80)
  }

  /** What Unicode counts as white space. */
  predicate WhiteSpace(c: nat) {
    || 0x09 <= c <= 0x0D || c == 0x20 || c == 0x85 || c == 0xA0 || c == 0x1680 || 0x2000 <= c <= 0x200A
    || c == 0x2028 || c == 0x2029 || c == 0x202F || c == 0x205F || c == 0x3000
  }

  /** The UTF-8 encoding of a code point of at most 16 bits. */
  function Utf8(c: nat): seq<byte>
    requires c < 0x1_0000
  {
    if c < 0x80 then [c]
    else if c < 0x800 then [0xC0 + c / 0x40, 0x80 + c % 0x40]
    else [0xE0 + c / 0x1000, 0x80 + c / 0x40 % 0x40, 0x80 + c % 0x40]
  }

  /** The one-, two- and three-byte tests find exactly the encodings of white space. */
  lemma SpaceExact(c: nat)
    requires c < 0x1_0000
    ensures WhiteSpace(c) <==> match |Utf8(c)|
      case 1 => IsSpace(Utf8(c)[0])
      case 2 => IsSpace2(Utf8(c)[0], Utf8(c)[1])
      case _ => IsSpace3(Utf8(c)[0], Utf8(c)[1], Utf8(c)[2])
  {
  }

  lemma SpaceIsEncoded(a: byte, b: byte, c: byte)
    ensures IsSpace2(a, b) ==> 0xC0 <= a && 0x80 <= b < 0xC0 && Utf8((a - 0xC0) * 0x40 + (b - 0x80)) == [a, b]
    ensures IsSpace3(a, b, c) ==>
      && 0xE0 <= a < 0xF0 && 0x80 <= b < 0xC0 && 0x80 <= c < 0xC0
      && Utf8((a - 0xE0) * 0x1000 + (b - 0x80) * 0x40 + (c - 0x80)) == [a, b, c]
  {
  }

  /** The length of the white-space character that a text starts with; 0 if it starts with none. */
  function StartWidth(s: seq<byte>): (w: nat)
    ensures w <= |s|
  {
    if |s| >= 1 && IsSpace(s[0]) then 1
    else if |s| >= 2 && IsSpace2(s[0], s[1]) then 2
    else if |s| >= 3 && IsSpace3(s[0], s[1], s[2]) then 3
    else 0
  }

  /** The same at its end. */
  function EndWidth(s: seq<byte>): (w: nat)
    ensures w <= |s|
  {
    var n := |s|;
    if n >= 1 && IsSpace(s[n - 1]) then 1
    else if n >= 2 && IsSpace2(s[n - 2], s[n - 1]) then 2
    else if n >= 3 && IsSpace3(s[n - 3], s[n - 2], s[n - 1]) then 3
    else 0
  }

  function TrimLeft(s: seq<byte>): seq<byte>
    decreases |s|
  {
    if StartWidth(s) == 0 then s else TrimLeft(s[StartWidth(s)..])
  }

  function TrimRight(s: seq<byte>): seq<byte>
    decreases |s|
  {
    if EndWidth(s) == 0 then s else TrimRight(s[..|s| - EndWidth(s)])
  }

  /** strings.TrimSpace. */
  function Trim(s: seq<byte>): seq<byte> {
    TrimRight(TrimLeft(s))
  }

  /** A text of white-space characters only. */
  predicate Blank(s: seq<byte>)
    decreases |s|
  {
    s == [] || (StartWidth(s) != 0 && Blank(s[StartWidth(s)..]))
  }

  /** An ASCII character that is no white space. */
  predicate Solid(b: byte) {
    b < 0x80 && !IsSpace(b)
  }

  /** One white-space character and nothing else. */
  predicate IsRune(s: seq<byte>) {
    s != [] && StartWidth(s) == |s|
  }

  lemma RuneCode(s: seq<byte>)
    requires IsRune(s)
    ensures exists c :: 0 <= c < 0x1_0000 && WhiteSpace(c) && Utf8(c) == s
  {
    var c: nat;
    if |s| == 1 {
      c := s[0];
    } else if |s| == 2 {
      SpaceIsEncoded(s[0], s[1], 0);
      c := (s[0] as int - 0xC0) * 0x40 + s[1] as int - 0x80;
    } else {
      SpaceIsEncoded(s[0], s[1], s[2]);
      c := (s[0] as int - 0xE0) * 0x1000 + (s[1] as int - 0x80) * 0x40 + s[2] as int - 0x80;
    }
    assert Utf8(c) == s;
    SpaceExact(c);
  }

  /** That is the UTF-8 encoding of one code point that is white space. */
  lemma RuneExact(s: seq<byte>)
    ensures IsRune(s) <==> exists c :: 0 <= c < 0x1_0000 && WhiteSpace(c) && Utf8(c) == s
  {
    if c :| 0 <= c < 0x1_0000 && WhiteSpace(c) && Utf8(c) == s {
      SpaceExact(c);
    }
    if IsRune(s) {
      RuneCode(s);
    }
  }

  /** No white-space character reaches from ASCII, or from another one, into the text behind it. */
  lemma EndWidthAppend(s: seq<byte>, t: seq<byte>)
    requires t != [] && (s == [] || s[|s| - 1] < 0x80 || IsRune(s))
    ensures EndWidth(s + t) == EndWidth(t)
  {
    var u, n, m := s + t, |s + t|, |t|;
    assert u[n - 1] == t[m - 1];
    assert m >= 2 ==> u[n - 2] == t[m - 2];
    assert m >= 3 ==> u[n - 3] == t[m - 3];
    assert m == 1 && s != [] ==> u[n - 2] == s[|s| - 1];
    assert m == 2 && s != [] ==> u[n - 3] == s[|s| - 1];
    assert m == 1 && |s| >= 2 ==> u[n - 3] == s[|s| - 2];
  }

  lemma RuneBothWays(s: seq<byte>)
    ensures IsRune(s) <==> s != [] && EndWidth(s) == |s|
  {
  }

  /** A white-space character at the start is found whatever follows it. */
  lemma StartWidthPrefix(s: seq<byte>, n: nat)
    requires n <= |s| && 0 < StartWidth(s[..n])
    ensures StartWidth(s) == StartWidth(s[..n])
  {
  }

  lemma StartWidthCut(s: seq<byte>, n: nat)
    requires StartWidth(s) <= n <= |s|
    ensures 0 < StartWidth(s) ==> StartWidth(s[..n]) == StartWidth(s)
  {
  }

  lemma CutBothEnds(s: seq<byte>, w: nat, e: nat)
    requires w + e <= |s|
    ensures s[..|s| - e][w..] == s[w..][..|s[w..]| - e]
  {
  }

  /** A blank text can be taken apart from its end as well. */
  lemma {:induction false} BlankEnd(s: seq<byte>)
    requires s != []
    ensures Blank(s) <==> EndWidth(s) != 0 && Blank(s[..|s| - EndWidth(s)])
    decreases |s|
  {
    var w, e := StartWidth(s), EndWidth(s);
    var first, rest, init := s[..w], s[w..], s[..|s| - e];
    if w == 0 {
      RuneBothWays(s);
      if init != [] && Blank(init) {
        StartWidthPrefix(s, |init|);
      }
    } else if rest == [] {
      RuneBothWays(s);
    } else {
      StartWidthCut(s, w);
      assert s == first + rest;
      EndWidthAppend(first, rest);
      BlankEnd(rest);
      StartWidthCut(s, |init|);
      CutBothEnds(s, w, e);
    }
  }

  /** strconv.Atoi with its error dropped: 0 for a text that is no number, the nearest 64-bit integer
      for a number out of range. */
  function Atoi(s: seq<byte>): int {
    var signed := s != [] && (s[0] == MINUS || s[0] == PLUS);
    var digits := if signed then s[1..] else s;
    if digits == [] || !AllDigits(digits) then 0
    else
      var n := if signed && s[0] == MINUS then -ValueOf(digits) else ValueOf(digits);
      Max(-MAX_INT - 1, Min(MAX_INT, n))
  }

  lemma {:induction false} ValueNotNegative(s: seq<byte>)
    ensures AllDigits(s) ==> ValueOf(s) >= 0
  {
    if s != [] {
      ValueNotNegative(s[..|s| - 1]);
    }
  }

  /** What Atoi makes of a text: digits with an optional sign, cut to 64 bits, and 0 for anything else. */
  lemma AtoiExact(digits: seq<byte>)
    requires digits != []
    ensures AllDigits(digits) ==>
      && Atoi(digits) == Atoi([43] + digits) == (if ValueOf(digits) > 0x7FFF_FFFF_FFFF_FFFF then 0x7FFF_FFFF_FFFF_FFFF
                                                 else ValueOf(digits))
      && Atoi([45] + digits) == if ValueOf(digits) > 0x8000_0000_0000_0000 then -0x8000_0000_0000_0000
                                else -ValueOf(digits)
    ensures !AllDigits(digits) ==> Atoi([43] + digits) == Atoi([45] + digits) == 0
    ensures !AllDigits(digits) && digits[0] != 43 && digits[0] != 45 ==> Atoi(digits) == 0
    ensures Atoi([]) == Atoi([43]) == Atoi([45]) == 0
  {
    assert ([43] + digits)[1..] == digits && ([45] + digits)[1..] == digits;
    ValueNotNegative(digits);
    assert AllDigits(digits) ==> IsDigit(digits[0]);
  }

  /** The header of port 8080 in ASCII: "8080" and a newline. */
  lemma HeaderOf8080()
    ensures Header(8080) == [56, 48, 56, 48, 10]
  {
    assert Digits(8) == [56] && Digits(80) == [56, 48] && Digits(808) == [56, 48, 56];
  }

  lemma PrintEnds(port: int)
    ensures Print(port) != [] && Solid(Print(port)[0]) && Solid(Print(port)[|Print(port)| - 1])
  {
    DigitsRead(if port < 0 then -port else port);
  }

  lemma PrintParses(port: int)
    requires -MAX_INT - 1 <= port <= MAX_INT
    ensures Atoi(Print(port)) == port
  {
    var digits := Digits(if port < 0 then -port else port);
    DigitsRead(if port < 0 then -port else port);
    assert IsDigit(digits[0]);
    if port < 0 {
      assert Print(port)[1..] == digits;
    }
  }

  /** What the client parses and what it leaves to forward when its first Read takes n bytes. */
  function Parsed(stream: seq<byte>, n: nat): int
    requires n <= |stream|
  {
    Atoi(Trim(stream[..n]))
  }

  // ----- a Read of any length ------------------------------------------------------------

  /** A proper beginning of a number is a smaller number. */
  lemma {:induction false} DigitsBegin(n: nat, k: nat)
    requires 1 <= k < |Digits(n)|
    ensures AllDigits(Digits(n)[..k]) && 0 <= ValueOf(Digits(n)[..k]) < n
  {
    var m := |Digits(n)| - 1;
    DigitsRead(n / 10);
    if k == m {
      assert Digits(n)[..k] == Digits(n / 10);
    } else {
      DigitsBegin(n / 10, k);
      assert Digits(n)[..k] == Digits(n / 10)[..k];
    }
  }

  lemma {:induction false} TrimRightBlank(s: seq<byte>, t: seq<byte>)
    requires s != [] && Solid(s[|s| - 1]) && Blank(t)
    ensures TrimRight(s + t) == s
    decreases |t|
  {
    if t == [] {
      assert s + t == s;
    } else {
      BlankEnd(t);
      EndWidthAppend(s, t);
      var init := t[..|t| - EndWidth(t)];
      assert (s + t)[..|s + t| - EndWidth(t)] == s + init;
      TrimRightBlank(s, init);
    }
  }

  /** Text that is not blank survives trimming, and with it everything in front of it that ends in ASCII. */
  lemma {:induction false} TrimRightText(s: seq<byte>, t: seq<byte>)
    requires s != [] && s[|s| - 1] < 0x80 && !Blank(t)
    ensures |TrimRight(s + t)| > |s| && TrimRight(s + t)[..|s|] == s
    decreases |t|
  {
    BlankEnd(t);
    EndWidthAppend(s, t);
    if EndWidth(t) != 0 {
      var init := t[..|t| - EndWidth(t)];
      assert (s + t)[..|s + t| - EndWidth(t)] == s + init;
      TrimRightText(s, init);
    }
  }

  /** A printed port starts with no white space, so only the end is trimmed. */
  lemma TrimStart(port: int, t: seq<byte>)
    ensures Trim(Print(port) + t) == TrimRight(Print(port) + t)
  {
    PrintEnds(port);
    assert (Print(port) + t)[0] == Print(port)[0];
    assert StartWidth(Print(port) + t) == 0;
  }

  /** A text with a newline in it is no number. */
  lemma NotANumber(s: seq<byte>, i: nat)
    requires 0 < i < |s| && s[i] == NEWLINE
    ensures Atoi(s) == 0
  {
    assert !IsDigit(s[i]);
    if s[0] == MINUS || s[0] == PLUS {
      assert s[1..][i - 1] == NEWLINE;
    }
  }

  lemma NothingToTrim(s: seq<byte>)
    requires s != [] && Solid(s[0]) && Solid(s[|s| - 1])
    ensures Trim(s) == s
  {
    assert StartWidth(s) == 0 && EndWidth(s) == 0;
  }

  lemma AtoiDigits(s: seq<byte>)
    requires s != [] && AllDigits(s) && 0 <= ValueOf(s) <= MAX_INT
    ensures Trim(s) == s && Atoi(s) == ValueOf(s)
  {
    assert IsDigit(s[0]) && IsDigit(s[|s| - 1]);
    NothingToTrim(s);
  }

  lemma AtoiMinus(s: seq<byte>)
    requires s != [] && AllDigits(s) && 0 <= ValueOf(s) <= MAX_INT
    ensures Trim([MINUS] + s) == [MINUS] + s && Atoi([MINUS] + s) == -ValueOf(s)
  {
    assert IsDigit(s[|s| - 1]);
    NothingToTrim([MINUS] + s);
    assert ([MINUS] + s)[1..] == s;
  }

  /** A Read that stops inside the number obtains another one, or none. */
  lemma ShortRead(port: int, n: nat)
    requires -MAX_INT - 1 <= port <= MAX_INT && 0 < n < |Print(port)|
    ensures Atoi(Trim(Print(port)[..n])) != port
  {
    if port >= 0 {
      DigitsBegin(port, n);
      AtoiDigits(Digits(port)[..n]);
    } else if n == 1 {
      assert Print(port)[..1] == [MINUS];
      NothingToTrim([MINUS]);
    } else {
      DigitsBegin(-port, n - 1);
      AtoiMinus(Digits(-port)[..n - 1]);
      assert Print(port)[..n] == [MINUS] + Digits(-port)[..n - 1];
    }
  }

  /** Every port comes back from its header. */
  lemma HeaderRoundTrip(port: int)
    requires -MAX_INT - 1 <= port <= MAX_INT
    ensures Trim(Header(port)) == Print(port) && Atoi(Trim(Header(port))) == port
  {
    PrintEnds(port);
    PrintParses(port);
    TrimStart(port, [NEWLINE]);
    assert [NEWLINE][1..] == [];
    TrimRightBlank(Print(port), [NEWLINE]);
  }

  /** A Read that takes more than the header: only blank data can follow without harm. */
  lemma LongRead(port: int, more: seq<byte>)
    requires -MAX_INT - 1 <= port <= MAX_INT
    ensures Atoi(Trim(Header(port) + more)) == if Blank(more) then port else 0
  {
    var text := Print(port);
    var rest := [NEWLINE] + more;
    PrintEnds(port);
    PrintParses(port);
    assert Header(port) + more == text + rest;
    TrimStart(port, rest);
    if Blank(more) {
      assert StartWidth(rest) == 1 && rest[1..] == more;
      TrimRightBlank(text, rest);
    } else {
      TrimRightText(Header(port), more);
      NotANumber(TrimRight(Header(port) + more), |text|);
    }
  }

  /** A Read that stops before the newline. */
  lemma HeadRead(port: int, n: nat)
    requires -MAX_INT - 1 <= port <= MAX_INT && n <= |Print(port)|
    ensures Atoi(Trim(Print(port)[..n])) == port <==> port == 0 || n == |Print(port)|
  {
    var text := Print(port);
    PrintEnds(port);
    PrintParses(port);
    NothingToTrim(text);
    if n == |text| {
      assert text[..n] == text;
    } else if n == 0 {
      assert text[..n] == [];
    } else {
      ShortRead(port, n);
    }
  }

  /** What is left behind a header of this length. */
  lemma RestExact(header: seq<byte>, data: seq<byte>, n: nat)
    requires n <= |header + data|
    ensures (header + data)[n..] == data <==> n == |header|
  {
    assert |(header + data)[n..]| == |header| + |data| - n;
  }

  lemma HeaderTake(port: int, data: seq<byte>, n: nat)
    requires n <= |Header(port) + data|
    ensures (Header(port) + data)[..n] ==
      if n < |Header(port)| then Print(port)[..n] else Header(port) + data[..n - |Header(port)|]
  {
  }

  /**
   * The client parses the right port exactly when its first Read takes at least the decimal text and, beyond
   * the header, nothing but white space; for port 0 always, since no number is 0 too. The rest to forward is
   * the user's data exactly when that Read takes the header and nothing else.
   */
  lemma FirstReadExact(port: int, data: seq<byte>, n: nat)
    requires -MAX_INT - 1 <= port <= MAX_INT && n <= |Header(port) + data|
    ensures Parsed(Header(port) + data, n) == port <==>
      port == 0 || (|Print(port)| <= n && Blank(data[..Max(0, n - |Header(port)|)]))
    ensures (Header(port) + data)[n..] == data <==> n == |Header(port)|
  {
    RestExact(Header(port), data, n);
    HeaderTake(port, data, n);
    if n < |Header(port)| {
      HeadRead(port, n);
      assert data[..0] == [];
    } else {
      LongRead(port, data[..n - |Header(port)|]);
    }
  }

  lemma {:induction false} DigitsShort(n: nat, k: nat)
    requires k >= 1 && n < Pow10(k)
    ensures |Digits(n)| <= k
  {
    if n >= 10 {
      DigitsShort(n / 10, k - 1);
    }
  }

  /** The header of any port fits the client's 64-byte buffer. */
  lemma HeaderFits(port: int)
    requires -MAX_INT - 1 <= port <= MAX_INT
    ensures |Header(port)| <= 21
  {
    assert Pow10(3) == 1000;
    assert Pow10(6) == 1_000_000;
    assert Pow10(9) == 1_000_000_000;
    assert Pow10(12) == 1_000_000_000_000;
    assert Pow10(15) == 1_000_000_000_000_000;
    assert Pow10(18) == 1_000_000_000_000_000_000;
    DigitsShort(if port < 0 then -port else port, 19);
  }

  // ----- the two ends -----------------------------------------------------------------

  method WritePortHeader(stream: Conn<byte>, port: int) returns (ok: bool)
    modifies stream`outbound, stream`credit
    ensures ok <==> old(stream.credit) > 0
    ensures stream.outbound == old(stream.outbound) + if ok then Header(port) else []
  {
    ok := stream.Write(Print(port) + [NEWLINE]);
  }

  /** One Read of at most 64 bytes is all that is parsed; the rest stays on the stream. */
  method ReadPortHeader(stream: Conn<byte>) returns (remotePort: int, n: nat, ok: bool)
    modifies stream`inbound
    ensures ok <==> old(stream.inbound) != []
    ensures ok ==> n == Min(64, |old(stream.inbound)[0]|) <= |old(stream.Pending())|
    ensures ok ==> remotePort == Parsed(old(stream.Pending()), n) && stream.Pending() == old(stream.Pending())[n..]
  {
    ghost var all := stream.Pending();
    ghost var segment := if stream.inbound == [] then [] else stream.inbound[0];
    var headerBuf := new byte[64];
    n, ok := stream.Read(headerBuf, 0);
    if !ok {
      return 0, 0, false;
    }
    assert headerBuf[..n] == segment[..n] == all[..n];
    remotePort := Atoi(Trim(headerBuf[..n]));
  }
}
