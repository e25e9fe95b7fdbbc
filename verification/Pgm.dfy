/** The PGM file of hj/ai/qrcode.hpp: the writer's header, the token reader and the header parser. */
module Pgm {
  import opened Division

  const INT_MAX: int := 0x7FFF_FFFF
  const NEWLINE: byte := 10
  const HASH: byte := 35

  datatype ErrorCode = MagicParseFailed | TokenEmpty | TokenConvertFailed | TokenOutOfRange | ReadFailed
  datatype Result<T> = Success(value: T) | Failure(error: ErrorCode)
  datatype Image = Image(width: int, height: int, data: seq<byte>)

  /** isspace in the C locale. */
  predicate IsSpace(c: byte) {
    c == 32 || 9 <= c <= 13
  }

  // ---------------------------------------------------------------- tokens

  /** Behind the next newline, or the end. */
  function AfterLine(f: seq<byte>, pos: nat): (p: nat)
    requires pos <= |f|
    ensures pos <= p <= |f|
    decreases |f| - pos
  {
    if pos == |f| then pos else if f[pos] == NEWLINE then pos + 1 else AfterLine(f, pos + 1)
  }

  /** Where the next token begins: blanks and comment lines are skipped. */
  function TokenStart(f: seq<byte>, pos: nat): (p: nat)
    requires pos <= |f|
    ensures pos <= p <= |f| && (p < |f| ==> !IsSpace(f[p]) && f[p] != HASH)
    decreases |f| - pos
  {
    if pos == |f| then pos
    else if IsSpace(f[pos]) then TokenStart(f, pos + 1)
    else if f[pos] == HASH then TokenStart(f, AfterLine(f, pos + 1))
    else pos
  }

  /** Where it ends: the delimiter, or the end of the file. */
  function TokenEnd(f: seq<byte>, pos: nat): (p: nat)
    requires pos <= |f|
    ensures pos <= p <= |f| && (p < |f| ==> IsSpace(f[p]) || f[p] == HASH)
    ensures forall i :: pos <= i < p ==> !IsSpace(f[i]) && f[i] != HASH
    decreases |f| - pos
  {
    if pos == |f| || IsSpace(f[pos]) || f[pos] == HASH then pos else TokenEnd(f, pos + 1)
  }

  /** One delimiter is consumed with the token; a '#' takes its line with it. */
  function AfterToken(f: seq<byte>, end: nat): (p: nat)
    requires end <= |f|
    ensures end <= p <= |f|
  {
    if end == |f| then end else if f[end] == HASH then AfterLine(f, end + 1) else end + 1
  }

  function TokenAt(f: seq<byte>, pos: nat): seq<byte>
    requires pos <= |f|
  {
    var start := TokenStart(f, pos);
    f[start..TokenEnd(f, start)]
  }

  function NextAt(f: seq<byte>, pos: nat): (p: nat)
    requires pos <= |f|
    ensures p <= |f|
  {
    AfterToken(f, TokenEnd(f, TokenStart(f, pos)))
  }

  // ---------------------------------------------------------------- what a token is, byte by byte

  /** No byte from..to is a newline. */
  predicate OneLine(f: seq<byte>, from: nat, to: nat)
    requires from <= to <= |f|
  {
    forall i :: from <= i < to ==> f[i] != 10
  }

  lemma {:induction false} LineEnds(f: seq<byte>, pos: nat, end: nat)
    requires pos <= end <= |f| && OneLine(f, pos, end) && (end < |f| ==> f[end] == 10)
    ensures AfterLine(f, pos) == if end < |f| then end + 1 else end
    decreases end - pos
  {
    if pos < end {
      LineEnds(f, pos + 1, end);
    }
  }

  /** A tab, newline, vertical tab, form feed, carriage return or space in front of a token is skipped. */
  lemma BlankSkipped(f: seq<byte>, pos: nat)
    requires pos < |f| && f[pos] in {9, 10, 11, 12, 13, 32}
    ensures TokenAt(f, pos) == TokenAt(f, pos + 1) && NextAt(f, pos) == NextAt(f, pos + 1)
  {
  }

  /** A comment in front of a token is skipped with its newline, or to the end of the file. */
  lemma CommentSkipped(f: seq<byte>, pos: nat, end: nat)
    requires pos < end <= |f| && f[pos] == 35 && OneLine(f, pos + 1, end) && (end < |f| ==> f[end] == 10)
    ensures end < |f| ==> TokenAt(f, pos) == TokenAt(f, end + 1) && NextAt(f, pos) == NextAt(f, end + 1)
    ensures end == |f| ==> TokenAt(f, pos) == [] && NextAt(f, pos) == |f|
  {
    LineEnds(f, pos + 1, end);
    if end == |f| {
      assert TokenStart(f, pos) == TokenStart(f, |f|);
    }
  }

  predicate Delimits(c: byte) {
    c in {9, 10, 11, 12, 13, 32, 35}
  }

  lemma {:induction false} TokenRuns(f: seq<byte>, pos: nat, end: nat)
    requires pos <= end <= |f| && (forall i :: pos <= i < end ==> !Delimits(f[i])) && (end < |f| ==> Delimits(f[end]))
    ensures TokenEnd(f, pos) == end
    decreases end - pos
  {
    if pos < end {
      assert !Delimits(f[pos]);
      TokenRuns(f, pos + 1, end);
    }
  }

  /** A token is everything up to the next delimiter; a blank is consumed with it, a '#' with its whole line. */
  lemma TokenIs(f: seq<byte>, pos: nat, end: nat, line: nat)
    requires pos < end <= line <= |f|
    requires (forall i :: pos <= i < end ==> !Delimits(f[i])) && (end < |f| ==> Delimits(f[end]))
    requires end < |f| && f[end] == 35 ==> end < line && OneLine(f, end + 1, line) && (line < |f| ==> f[line] == 10)
    ensures TokenAt(f, pos) == f[pos..end]
    ensures NextAt(f, pos) == if end == |f| then |f|
                              else if f[end] != 35 then end + 1
                              else if line < |f| then line + 1 else |f|
  {
    assert !Delimits(f[pos]);
    TokenRuns(f, pos, end);
    if end < |f| && f[end] == 35 {
      LineEnds(f, end + 1, line);
    }
  }

  class Input {
    const bytes: seq<byte>
    var pos: nat

    ghost predicate Valid()
      reads this
    {
      pos <= |bytes|
    }

    constructor (f: seq<byte>)
      ensures Valid() && bytes == f && pos == 0
    {
      bytes := f;
      pos := 0;
    }

    /** std::getline */
    method SkipLine()
      requires Valid()
      modifies this
      ensures Valid() && pos == AfterLine(bytes, old(pos))
    {
      var done := false;
      while pos < |bytes| && !done
        invariant pos <= |bytes|
        invariant AfterLine(bytes, old(pos)) == if done then pos else AfterLine(bytes, pos)
      {
        done := bytes[pos] == NEWLINE;
        pos := pos + 1;
      }
    }

    /** The first loop of _read_token: up to and including the first character of a token. */
    method SkipToToken() returns (token: seq<byte>)
      requires Valid()
      modifies this
      ensures Valid()
      ensures var start := TokenStart(bytes, old(pos));
              if start == |bytes| then token == [] && pos == start else token == [bytes[start]] && pos == start + 1
    {
      token := [];
      ghost var start := TokenStart(bytes, pos);
      while pos < |bytes| && token == []
        invariant pos <= |bytes|
        invariant token == [] ==> TokenStart(bytes, pos) == start
        invariant token != [] ==> start < |bytes| && pos == start + 1 && token == [bytes[start]]
        decreases |bytes| - pos
      {
        var c := bytes[pos];
        pos := pos + 1;
        if IsSpace(c) {
        } else if c == HASH {
          SkipLine();
        } else {
          token := [c];
        }
      }
    }

    /** The second loop: the rest of the token and its one delimiter. */
    method FinishToken(ghost start: nat, first: seq<byte>) returns (token: seq<byte>)
      requires Valid() && start < pos && first == bytes[start..pos] && TokenEnd(bytes, start) == TokenEnd(bytes, pos)
      modifies this
      ensures Valid() && token == bytes[start..TokenEnd(bytes, start)] && pos == AfterToken(bytes, TokenEnd(bytes, start))
    {
      token := first;
      ghost var end := TokenEnd(bytes, start);
      var done := false;
      while pos < |bytes| && !done
        invariant start < pos <= |bytes|
        invariant !done ==> token == bytes[start..pos] && TokenEnd(bytes, pos) == end
        invariant done ==> token == bytes[start..end] && pos == AfterToken(bytes, end) && end < |bytes|
        decreases |bytes| - pos, !done
      {
        var c := bytes[pos];
        pos := pos + 1;
        if IsSpace(c) || c == HASH {
          if c == HASH {
            SkipLine();
          }
          done := true;
        } else {
          token := token + [c];
        }
      }
    }

    /** _read_token */
    method ReadToken() returns (token: seq<byte>)
      requires Valid()
      modifies this
      ensures Valid() && token == TokenAt(bytes, old(pos)) && pos == NextAt(bytes, old(pos))
    {
      ghost var start := TokenStart(bytes, pos);
      token := SkipToToken();
      if token == [] {
        return;
      }
      assert bytes[start..start + 1] == [bytes[start]];
      token := FinishToken(start, token);
    }
  }

  // ---------------------------------------------------------------- numbers

  predicate IsDigit(c: byte) {
    48 <= c <= 57
  }

  /** The decimal digits written by operator<<. */
  function Digits(n: nat): (s: seq<byte>)
    ensures s != [] && forall i :: 0 <= i < |s| ==> IsDigit(s[i])
  {
    if n < 10 then [48 + n] else Digits(n / 10) + [48 + n % 10]
  }

  function DigitRun(s: seq<byte>): (k: nat)
    ensures k <= |s| && forall i :: 0 <= i < k ==> IsDigit(s[i])
  {
    if s == [] || !IsDigit(s[0]) then 0 else 1 + DigitRun(s[1..])
  }

  function Value(s: seq<byte>): nat
    requires forall i :: 0 <= i < |s| ==> IsDigit(s[i])
  {
    if s == [] then 0
    else
      var d := s[|s| - 1];
      assert IsDigit(s[|s| - 1]);
      Value(s[..|s| - 1]) * 10 + ((d as int) - 48)
  }

  /** std::stoi on a token: an optional sign, then as many digits as there are; what follows is ignored. */
  function Stoi(s: seq<byte>): Result<int> {
    var signed := s != [] && (s[0] == 43 || s[0] == 45);
    var body := if signed then s[1..] else s;
    var k := DigitRun(body);
    if k == 0 then Failure(TokenConvertFailed)
    else
      var v: int := if signed && s[0] == 45 then 0 - (Value(body[..k]) as int) else Value(body[..k]);
      if -INT_MAX - 1 <= v <= INT_MAX then Success(v) else Failure(TokenConvertFailed)
  }

  lemma {:induction false} DigitRunIs(digits: seq<byte>, tail: seq<byte>)
    requires forall i :: 0 <= i < |digits| ==> 48 <= digits[i] <= 57
    requires tail == [] || !(48 <= tail[0] <= 57)
    ensures DigitRun(digits + tail) == |digits|
  {
    if digits == [] {
      assert digits + tail == tail;
    } else {
      assert (digits + tail)[1..] == digits[1..] + tail;
      DigitRunIs(digits[1..], tail);
    }
  }

  lemma BehindSign(s: seq<byte>, sign: seq<byte>, body: seq<byte>)
    requires s == sign + body && sign in {[], [43], [45]}
    requires sign == [] && body != [] ==> body[0] != 43 && body[0] != 45
    ensures (s != [] && (s[0] == 43 || s[0] == 45)) <==> sign != []
    ensures sign != [] ==> s[0] == sign[0]
    ensures body == if sign != [] then s[1..] else s
  {
    assert sign == [] ==> s == body;
  }

  lemma StoiBySign(s: seq<byte>, signed: bool, negative: bool, body: seq<byte>, digits: seq<byte>)
    requires signed == (s != [] && (s[0] == 43 || s[0] == 45)) && body == (if signed then s[1..] else s)
    requires negative == (signed && s[0] == 45) && digits == body[..DigitRun(body)]
    ensures Stoi(s) == (
              if digits == [] then Failure(TokenConvertFailed)
              else
                var v: int := if negative then 0 - (Value(digits) as int) else Value(digits);
                if -2147483648 <= v <= 2147483647 then Success(v) else Failure(TokenConvertFailed))
  {
  }

  /** std::stoi: an optional sign, at least one digit, and anything behind the digits; int's range is enforced. */
  lemma StoiIs(s: seq<byte>, sign: seq<byte>, digits: seq<byte>, tail: seq<byte>)
    requires s == sign + (digits + tail) && sign in {[], [43], [45]}
    requires forall i :: 0 <= i < |digits| ==> 48 <= digits[i] <= 57
    requires tail == [] || !(48 <= tail[0] <= 57)
    requires sign == [] && digits == [] && tail != [] ==> tail[0] != 43 && tail[0] != 45
    ensures Stoi(s) == (
              if digits == [] then Failure(TokenConvertFailed)
              else
                var v: int := if sign == [45] then 0 - (Value(digits) as int) else Value(digits);
                if -2147483648 <= v <= 2147483647 then Success(v) else Failure(TokenConvertFailed))
  {
    var body := digits + tail;
    BehindSign(s, sign, body);
    DigitRunIs(digits, tail);
    assert body[..|digits|] == digits;
    StoiBySign(s, sign != [], sign == [45], body, digits);
  }

  /** Decimal, most significant digit first. */
  lemma ValueIs(digits: seq<byte>, last: byte)
    requires (forall i :: 0 <= i < |digits| ==> 48 <= digits[i] <= 57) && 48 <= last <= 57
    ensures Value([]) == 0 && Value(digits + [last]) == Value(digits) * 10 + (last as int - 48)
  {
    assert (digits + [last])[..|digits|] == digits;
  }

  lemma {:induction false} DigitRunAll(s: seq<byte>)
    requires forall i :: 0 <= i < |s| ==> IsDigit(s[i])
    ensures DigitRun(s) == |s|
  {
    if s != [] {
      DigitRunAll(s[1..]);
    }
  }

  lemma {:induction false} ValueOfDigits(n: nat)
    ensures Value(Digits(n)) == n
  {
    if n >= 10 {
      ValueOfDigits(n / 10);
      assert Digits(n)[..|Digits(n)| - 1] == Digits(n / 10);
    } else {
      assert Digits(n)[..0] == [];
    }
  }

  /** Reading back a printed number. */
  lemma StoiOfDigits(n: nat)
    requires n <= INT_MAX
    ensures Stoi(Digits(n)) == Success(n)
  {
    var s := Digits(n);
    DigitRunAll(s);
    ValueOfDigits(n);
    assert s[..|s|] == s;
  }

  // ---------------------------------------------------------------- writing and parsing

  /** operator<<(int) */
  function Printed(n: int): seq<byte> {
    if n < 0 then [45] + Digits(-n) else Digits(n)
  }

  /** "P5\n" width " " height "\n255\n" and the pixels. */
  function Written(img: Image): seq<byte> {
    [80, 53, 10] + Printed(img.width) + [32] + Printed(img.height) + [10, 50, 53, 53, 10] + img.data
  }

  /** One file, byte for byte. */
  lemma WrittenExample(img: Image)
    requires img == Image(1024, 1, [7, 9])
    ensures Written(img) == [80, 53, 10, 49, 48, 50, 52, 32, 49, 10, 50, 53, 53, 10, 7, 9]
  {
    assert Digits(10) == [49, 48];
    assert Digits(102) == [49, 48, 50];
    assert Digits(1024) == [49, 48, 50, 52];
    assert Digits(1) == [49];
  }

  lemma Area(w: int, h: int)
    requires w > 0 && h > 0
    ensures w * h > 0
  {
  }

  /** Conversion, range check and the read of the pixels. */
  function FromTokens(f: seq<byte>, wtok: seq<byte>, htok: seq<byte>, maxvtok: seq<byte>, pos: nat): Result<Image>
    requires pos <= |f|
  {
    var w, h, maxv := Stoi(wtok), Stoi(htok), Stoi(maxvtok);
    if w.Failure? || h.Failure? || maxv.Failure? then Failure(TokenConvertFailed)
    else if w.value <= 0 || h.value <= 0 || maxv.value <= 0 || maxv.value > 255 then Failure(TokenOutOfRange)
    else if |f| - pos < w.value * h.value then Failure(ReadFailed)
    else
      Area(w.value, h.value);
      Success(Image(w.value, h.value, f[pos..pos + w.value * h.value]))
  }

  /** The parser's answer for every file: the first failing check wins. */
  function Parsed(f: seq<byte>): Result<Image> {
    var p1 := NextAt(f, 0);
    var p2 := NextAt(f, p1);
    var p3 := NextAt(f, p2);
    if TokenAt(f, 0) != [80, 53] then Failure(MagicParseFailed)
    else if TokenAt(f, p1) == [] || TokenAt(f, p2) == [] || TokenAt(f, p3) == [] then Failure(TokenEmpty)
    else FromTokens(f, TokenAt(f, p1), TokenAt(f, p2), TokenAt(f, p3), NextAt(f, p3))
  }

  lemma AcceptedTokens(f: seq<byte>, a: seq<byte>, b: seq<byte>, c: seq<byte>, pos: nat, w: Result<int>, h: Result<int>,
                       maxv: Result<int>, n: int, r: Result<Image>)
    requires pos <= |f| && w == Stoi(a) && h == Stoi(b) && maxv == Stoi(c) && r == FromTokens(f, a, b, c, pos)
    requires w.Success? && h.Success? ==> n == w.value * h.value
    ensures r.Success? <==>
            && w.Success? && h.Success? && maxv.Success?
            && w.value >= 1 && h.value >= 1 && 1 <= maxv.value <= 255 && n <= |f| - pos
    ensures r.Success? ==> n > 0 && r == Success(Image(w.value, h.value, f[pos..pos + n]))
  {
    if w.Success? && h.Success? && w.value > 0 && h.value > 0 {
      Area(w.value, h.value);
    }
  }

  lemma StoiOfNothing()
    ensures Stoi([]) == Failure(TokenConvertFailed)
  {
  }

  /** What is accepted, and what the picture then is. */
  lemma AcceptedIff(f: seq<byte>, p1: nat, p2: nat, p3: nat, p4: nat, w: Result<int>, h: Result<int>, maxv: Result<int>,
                    n: int)
    requires p1 == NextAt(f, 0) && p2 == NextAt(f, p1) && p3 == NextAt(f, p2) && p4 == NextAt(f, p3)
    requires w == Stoi(TokenAt(f, p1)) && h == Stoi(TokenAt(f, p2)) && maxv == Stoi(TokenAt(f, p3))
    requires w.Success? && h.Success? ==> n == w.value * h.value
    ensures Parsed(f).Success? <==>
            && TokenAt(f, 0) == [80, 53] && w.Success? && h.Success? && maxv.Success?
            && w.value >= 1 && h.value >= 1 && 1 <= maxv.value <= 255 && n <= |f| - p4
    ensures Parsed(f).Success? ==> n > 0 && Parsed(f) == Success(Image(w.value, h.value, f[p4..p4 + n]))
  {
    StoiOfNothing();
    var a, b, c := TokenAt(f, p1), TokenAt(f, p2), TokenAt(f, p3);
    AcceptedTokens(f, a, b, c, p4, w, h, maxv, n, FromTokens(f, a, b, c, p4));
  }

  /** Which check a refused file failed. */
  lemma RefusedBecause(f: seq<byte>, p1: nat, p2: nat, p3: nat, w: Result<int>, h: Result<int>, maxv: Result<int>)
    requires p1 == NextAt(f, 0) && p2 == NextAt(f, p1) && p3 == NextAt(f, p2)
    requires w == Stoi(TokenAt(f, p1)) && h == Stoi(TokenAt(f, p2)) && maxv == Stoi(TokenAt(f, p3))
    requires Parsed(f).Failure? && TokenAt(f, 0) == [80, 53]
    ensures TokenAt(f, p1) == [] || TokenAt(f, p2) == [] || TokenAt(f, p3) == [] <==> Parsed(f).error == TokenEmpty
    ensures Parsed(f).error != TokenEmpty ==>
              (w.Failure? || h.Failure? || maxv.Failure? <==> Parsed(f).error == TokenConvertFailed)
    ensures Parsed(f).error == TokenOutOfRange ==>
              && w.Success? && h.Success? && maxv.Success?
              && (w.value < 1 || h.value < 1 || maxv.value < 1 || maxv.value > 255)
    ensures Parsed(f).error == ReadFailed ==>
              && w.Success? && h.Success? && maxv.Success? && w.value >= 1 && h.value >= 1 && 1 <= maxv.value <= 255
    ensures Parsed(f).error != MagicParseFailed
  {
  }

  /** The header part of parser::decode(pgm). */
  method Parse(f: seq<byte>) returns (r: Result<Image>)
    ensures r == Parsed(f)
  {
    var ifs := new Input(f);
    var magic := ifs.ReadToken();
    if magic != [80, 53] {
      return Failure(MagicParseFailed);
    }
    var wtok := ifs.ReadToken();
    if wtok == [] {
      return Failure(TokenEmpty);
    }
    var htok := ifs.ReadToken();
    if htok == [] {
      return Failure(TokenEmpty);
    }
    var maxvtok := ifs.ReadToken();
    if maxvtok == [] {
      return Failure(TokenEmpty);
    }
    r := FromTokens(f, wtok, htok, maxvtok, ifs.pos);
  }

  lemma {:induction false} EndsAt(f: seq<byte>, pos: nat, end: nat)
    requires pos <= end < |f| && IsSpace(f[end])
    requires forall i :: pos <= i < end ==> !IsSpace(f[i]) && f[i] != HASH
    ensures TokenEnd(f, pos) == end
    decreases end - pos
  {
    if pos < end {
      EndsAt(f, pos + 1, end);
    }
  }

  /** A token in front of one delimiter is read whole, and nothing behind the delimiter is touched. */
  lemma {:induction false} ReadsBack(f: seq<byte>, pos: nat, end: nat, token: seq<byte>)
    requires pos < end < |f| && f[pos..end] == token && IsSpace(f[end])
    requires forall i :: 0 <= i < |token| ==> !IsSpace(token[i]) && token[i] != HASH
    ensures TokenAt(f, pos) == token && NextAt(f, pos) == end + 1
  {
    forall i | pos <= i < end
      ensures f[i] == token[i - pos]
    {
      assert f[pos..end][i - pos] == f[i];
    }
    EndsAt(f, pos, end);
    assert TokenStart(f, pos) == pos;
  }

  /** Characters that end no token and begin no comment. */
  ghost predicate IsToken(s: seq<byte>) {
    s != [] && forall i :: 0 <= i < |s| ==> !IsSpace(s[i]) && s[i] != HASH
  }

  lemma PrintedIsToken(n: int)
    ensures IsToken(Printed(n))
  {
  }

  lemma StoiOfPrinted(n: int)
    requires -INT_MAX - 1 <= n <= INT_MAX
    ensures Stoi(Printed(n)) == Success(n)
  {
    if n < 0 {
      var s := Printed(n);
      var body := Digits(-n);
      assert s[1..] == body;
      DigitRunAll(body);
      ValueOfDigits(-n);
      assert body[..|body|] == body;
    } else {
      StoiOfDigits(n);
    }
  }

  /** Where the header's fields lie. */
  ghost predicate Header(f: seq<byte>, w: seq<byte>, h: seq<byte>, body: seq<byte>) {
    var p2, p3 := 4 + |w|, 5 + |w| + |h|;
    && |f| == p3 + 4 + |body|
    && f[0..2] == [80, 53] && f[2] == NEWLINE
    && f[3..p2 - 1] == w && f[p2 - 1] == 32
    && f[p2..p3 - 1] == h && f[p3 - 1] == NEWLINE
    && f[p3..p3 + 3] == [50, 53, 53] && f[p3 + 3] == NEWLINE
    && f[p3 + 4..] == body
  }

  lemma WrittenHasHeader(w: seq<byte>, h: seq<byte>, body: seq<byte>)
    ensures Header([80, 53, 10] + w + [32] + h + [10, 50, 53, 53, 10] + body, w, h, body)
  {
  }

  lemma HeaderTokens(f: seq<byte>, w: seq<byte>, h: seq<byte>, body: seq<byte>, p2: nat, p3: nat)
    requires Header(f, w, h, body) && p2 == 4 + |w| && p3 == 5 + |w| + |h|
    requires IsToken(w) && IsToken(h)
    ensures TokenAt(f, 0) == [80, 53] && NextAt(f, 0) == 3
    ensures TokenAt(f, 3) == w && NextAt(f, 3) == p2
    ensures TokenAt(f, p2) == h && NextAt(f, p2) == p3
    ensures TokenAt(f, p3) == [50, 53, 53] && NextAt(f, p3) == p3 + 4
  {
    ReadsBack(f, 0, 2, [80, 53]);
    ReadsBack(f, 3, p2 - 1, w);
    ReadsBack(f, p2, p3 - 1, h);
    ReadsBack(f, p3, p3 + 3, [50, 53, 53]);
  }

  /** What becomes of any written picture: its size is checked, then so many bytes are read. */
  function Survivor(w: int, h: int, body: seq<byte>): Result<Image> {
    if w <= 0 || h <= 0 then Failure(TokenOutOfRange)
    else if |body| < w * h then Failure(ReadFailed)
    else
      Area(w, h);
      Success(Image(w, h, body[..w * h]))
  }

  lemma Grouped(a: seq<byte>, b: seq<byte>, c: seq<byte>)
    ensures a + b + c == a + (b + c)
  {
  }

  lemma BodyBehind(f: seq<byte>, w: seq<byte>, h: seq<byte>, body: seq<byte>, pos: nat)
    requires Header(f, w, h, body) && pos == 9 + |w| + |h|
    ensures pos <= |f| && f[pos..] == body
  {
  }

  lemma ParsedFrom(f: seq<byte>, w: seq<byte>, h: seq<byte>, p1: nat, p2: nat, p3: nat, p4: nat)
    requires p1 <= |f| && p2 <= |f| && p3 <= |f| && p4 <= |f|
    requires TokenAt(f, 0) == [80, 53] && NextAt(f, 0) == p1
    requires TokenAt(f, p1) == w != [] && NextAt(f, p1) == p2
    requires TokenAt(f, p2) == h != [] && NextAt(f, p2) == p3
    requires TokenAt(f, p3) == [50, 53, 53] && NextAt(f, p3) == p4
    ensures Parsed(f) == FromTokens(f, w, h, [50, 53, 53], p4)
  {
  }

  lemma HeaderParses(f: seq<byte>, w: seq<byte>, h: seq<byte>, body: seq<byte>, p2: nat, p3: nat, p4: nat)
    requires Header(f, w, h, body) && p2 == 4 + |w| && p3 == 5 + |w| + |h| && p4 == p3 + 4
    requires IsToken(w) && IsToken(h)
    ensures Parsed(f) == FromTokens(f, w, h, [50, 53, 53], p4)
  {
    HeaderTokens(f, w, h, body, p2, p3);
    ParsedFrom(f, w, h, 3, p2, p3, p4);
  }

  lemma HeaderGives(f: seq<byte>, w: seq<byte>, h: seq<byte>, body: seq<byte>, width: int, height: int, m: seq<byte>, pos: nat)
    requires Header(f, w, h, body) && w == Printed(width) && h == Printed(height) && m == [50, 53, 53]
    requires pos == 9 + |w| + |h| <= |f|
    ensures Parsed(f) == FromTokens(f, w, h, m, pos)
  {
    PrintedIsToken(width);
    PrintedIsToken(height);
    HeaderParses(f, w, h, body, 4 + |w|, 5 + |w| + |h|, pos);
  }

  lemma StoiOf255()
    ensures Stoi([50, 53, 53]) == Success(255)
  {
    assert Digits(25) == [50, 53];
    assert Digits(255) == [50, 53, 53];
    StoiOfDigits(255);
  }

  lemma FromTokensIs(f: seq<byte>, w: seq<byte>, h: seq<byte>, width: int, height: int, m: seq<byte>, pos: nat, body: seq<byte>)
    requires pos <= |f| && f[pos..] == body && w == Printed(width) && h == Printed(height) && m == [50, 53, 53]
    requires -INT_MAX - 1 <= width <= INT_MAX && -INT_MAX - 1 <= height <= INT_MAX
    ensures FromTokens(f, w, h, m, pos) == Survivor(width, height, body)
  {
    StoiOfPrinted(width);
    StoiOfPrinted(height);
    StoiOf255();
    if width > 0 && height > 0 {
      Area(width, height);
      if |body| >= width * height {
        assert f[pos..pos + width * height] == body[..width * height];
      }
    }
  }

  lemma HeaderSurvives(f: seq<byte>, w: seq<byte>, h: seq<byte>, body: seq<byte>, width: int, height: int)
    requires Header(f, w, h, body) && w == Printed(width) && h == Printed(height)
    requires -INT_MAX - 1 <= width <= INT_MAX && -INT_MAX - 1 <= height <= INT_MAX
    ensures Parsed(f) == Survivor(width, height, body)
  {
    var pos := 9 + |w| + |h|;
    BodyBehind(f, w, h, body, pos);
    FromTokensIs(f, w, h, width, height, [50, 53, 53], pos, body);
    HeaderGives(f, w, h, body, width, height, [50, 53, 53], pos);
  }

  lemma {:induction false} WrittenParses(img: Image, extra: seq<byte>)
    requires -INT_MAX - 1 <= img.width <= INT_MAX && -INT_MAX - 1 <= img.height <= INT_MAX
    ensures Parsed(Written(img) + extra) == Survivor(img.width, img.height, img.data + extra)
  {
    var w, h := Printed(img.width), Printed(img.height);
    var f, body := Written(img) + extra, img.data + extra;
    Grouped([80, 53, 10] + w + [32] + h + [10, 50, 53, 53, 10], img.data, extra);
    WrittenHasHeader(w, h, body);
    HeaderSurvives(f, w, h, body, img.width, img.height);
  }

  /** Writing and parsing is the identity for every picture, whatever its bytes are and whatever
      follows them in the file. */
  lemma {:induction false} WriteParse(img: Image, extra: seq<byte>)
    requires 0 < img.width <= INT_MAX && 0 < img.height <= INT_MAX && |img.data| == img.width * img.height
    ensures Parsed(Written(img) + extra) == Success(img)
  {
    WrittenParses(img, extra);
    assert (img.data + extra)[..|img.data|] == img.data;
  }
}
