/**
 makeimg.py: the version bump, the image header and the image file
 (Tools/makeimg.py:47-130). Command-line numbers arrive as integers, files as their contents.
*/
module MakeImg {
  import opened Wrappers
  import opened CrcWord
  import opened ImageHeader
  import opened BinFile
  import opened CrcModes
  import FlsImage

  datatype ImgError = BadVersion | BadField | NoSource

  // ---------- numbers as text ----------

  predicate IsSpace(c: char) {
    '\t' <= c <= '\r' || '\U{1c}' <= c <= ' '
  }

  function StripLeft(s: string): string {
    if s != [] && IsSpace(s[0]) then StripLeft(s[1..]) else s
  }

  function StripRight(s: string): string {
    if s != [] && IsSpace(s[|s| - 1]) then StripRight(s[..|s| - 1]) else s
  }

  predicate IsDigit(c: char) { '0' <= c <= '9' }

  function DigitValue(c: char): nat
    requires IsDigit(c)
  {
    c as int - '0' as int
  }

  /** Digits, with single underscores allowed between them. */
  predicate IsNumeral(s: string) {
    && s != [] && IsDigit(s[0]) && IsDigit(s[|s| - 1])
    && forall i {:trigger s[i]} :: 0 < i < |s| - 1 ==> IsDigit(s[i]) || (s[i] == '_' && s[i - 1] != '_')
  }

  function NumeralValue(s: string): nat {
    if s == [] then 0
    else
      var last := s[|s| - 1];
      var rest := NumeralValue(s[..|s| - 1]);
      if IsDigit(last) then 10 * rest + DigitValue(last) else rest
  }

  /** Python's int(s) on ASCII text. */
  function ParseInt(s: string): Option<int> {
    var t := StripRight(StripLeft(s));
    var minus := t != [] && t[0] == '-';
    var digits := if t != [] && (t[0] == '-' || t[0] == '+') then t[1..] else t;
    var value: int := NumeralValue(digits);
    if IsNumeral(digits) then Some(if minus then -value else value) else None
  }

  function Digit(d: nat): char
    requires d < 10
  {
    ['0', '1', '2', '3', '4', '5', '6', '7', '8', '9'][d]
  }

  function Decimal(n: nat): string {
    if n < 10 then [Digit(n)] else Decimal(n / 10) + [Digit(n % 10)]
  }

  /** '{:0>2d}'.format(n) */
  function TwoDigits(n: int): string {
    var s := if n < 0 then "-" + Decimal(-n) else Decimal(n);
    if |s| < 2 then "0" + s else s
  }

  lemma {:induction false} DecimalValue(n: nat)
    ensures IsNumeral(Decimal(n)) && NumeralValue(Decimal(n)) == n
    ensures forall i :: 0 <= i < |Decimal(n)| ==> IsDigit(Decimal(n)[i])
  {
    if n >= 10 {
      DecimalValue(n / 10);
      var s := Decimal(n);
      assert s[..|s| - 1] == Decimal(n / 10) && s[|s| - 1] == Digit(n % 10);
    }
  }

  lemma StripsNothing(s: string)
    requires s != [] && !IsSpace(s[0]) && !IsSpace(s[|s| - 1])
    ensures StripRight(StripLeft(s)) == s
  {
  }

  lemma LeadingZero(n: nat)
    requires n < 10
    ensures IsNumeral("0" + Decimal(n)) && NumeralValue("0" + Decimal(n)) == n
  {
    var s := "0" + Decimal(n);
    assert s == ['0', Digit(n)] && s[..1] == ['0'];
    assert NumeralValue(['0']) == 0;
  }

  /** Formatting and parsing a number are inverse. */
  lemma FormatParses(n: int)
    ensures ParseInt(TwoDigits(n)) == Some(n) && |TwoDigits(n)| >= 2
  {
    hide Decimal, IsNumeral, NumeralValue, StripLeft, StripRight;
    var m: nat := if n < 0 then -n else n;
    var d := Decimal(m);
    DecimalValue(m);
    assert IsDigit(d[0]) && IsDigit(d[|d| - 1]) by { NumeralEnds(d); }
    var s := TwoDigits(n);
    if n < 0 {
      assert s == "-" + d && s[1..] == d;
    } else if |d| < 2 {
      DecimalShort(m);
      LeadingZero(m);
    }
    StripsNothing(s);
  }

  lemma NumeralEnds(s: string)
    requires IsNumeral(s)
    ensures s != [] && IsDigit(s[0]) && IsDigit(s[|s| - 1])
  {
  }

  lemma DecimalShort(n: nat)
    requires |Decimal(n)| < 2
    ensures n < 10
  {
  }

  lemma {:induction false} DecimalShape(n: nat)
    ensures |Decimal(n)| == 1 <==> n < 10
    ensures |Decimal(n)| >= 1 && (n < 100 ==> |Decimal(n)| <= 2)
    ensures n > 0 ==> Decimal(n)[0] != '0'
    ensures forall i :: 0 <= i < |Decimal(n)| ==> IsDigit(Decimal(n)[i])
  {
    if n >= 10 {
      DecimalShape(n / 10);
    }
  }

  /** The shortest form of at least two characters: digits, behind a minus sign for a negative number. */
  lemma FormatShape(n: int)
    ensures |TwoDigits(n)| >= 2 && (-10 < n < 100 ==> |TwoDigits(n)| == 2)
    ensures n >= 0 ==> forall i :: 0 <= i < |TwoDigits(n)| ==> IsDigit(TwoDigits(n)[i])
    ensures n < 0 ==> TwoDigits(n)[0] == '-' && forall i :: 0 < i < |TwoDigits(n)| ==> IsDigit(TwoDigits(n)[i])
    ensures |TwoDigits(n)| > 2 || n < 0 ==> TwoDigits(n)[if n < 0 then 1 else 0] != '0'
  {
    hide Decimal;
    DecimalShape(if n < 0 then -n else n);
  }

  // ---------- what int() accepts ----------

  ghost predicate AllSpace(s: string) {
    forall i :: 0 <= i < |s| ==> IsSpace(s[i])
  }

  lemma {:induction false} StripLeftPrefix(s: string)
    ensures |StripLeft(s)| <= |s| && s[|s| - |StripLeft(s)|..] == StripLeft(s)
    ensures AllSpace(s[..|s| - |StripLeft(s)|])
  {
    if s != [] && IsSpace(s[0]) {
      StripLeftPrefix(s[1..]);
      var k := |s| - |StripLeft(s)|;
      assert s[..k] == [s[0]] + s[1..][..k - 1] && s[k..] == s[1..][k - 1..];
    }
  }

  lemma {:induction false} StripRightSuffix(s: string)
    ensures StripRight(s) <= s && AllSpace(s[|StripRight(s)|..])
  {
    if s != [] && IsSpace(s[|s| - 1]) {
      var t := s[..|s| - 1];
      StripRightSuffix(t);
      assert s[|StripRight(s)|..] == t[|StripRight(t)|..] + [s[|s| - 1]];
    }
  }

  lemma {:induction false} StripsLeft(pre: string, s: string)
    requires AllSpace(pre)
    ensures StripLeft(pre + s) == StripLeft(s)
  {
    if pre == [] {
      assert pre + s == s;
    } else {
      assert (pre + s)[1..] == pre[1..] + s;
      StripsLeft(pre[1..], s);
    }
  }

  lemma {:induction false} StripsRight(s: string, post: string)
    requires AllSpace(post)
    ensures StripRight(s + post) == StripRight(s)
  {
    if post == [] {
      assert s + post == s;
    } else {
      var rest := post[..|post| - 1];
      assert (s + post)[..|s + post| - 1] == s + rest;
      StripsRight(s, rest);
    }
  }

  /** White space, an optional sign, a numeral, white space. */
  ghost predicate NumberText(s: string, pre: string, sign: string, digits: string, post: string) {
    && s == pre + sign + digits + post && AllSpace(pre) && AllSpace(post)
    && (sign == "" || sign == "+" || sign == "-") && IsNumeral(digits)
  }

  function Signed(sign: string, digits: string): int {
    if sign == "-" then 0 - NumeralValue(digits) else NumeralValue(digits)
  }

  lemma Stripped(pre: string, t: string, post: string)
    requires AllSpace(pre) && AllSpace(post) && t != [] && !IsSpace(t[0]) && !IsSpace(t[|t| - 1])
    ensures StripRight(StripLeft(pre + t + post)) == t
  {
    hide StripLeft, StripRight, AllSpace;
    assert pre + t + post == pre + (t + post);
    StripsLeft(pre, t + post);
    NothingToStrip(t + post);
    StripsRight(t, post);
    NothingToStrip(t);
    StripsNothing(t);
  }

  lemma NothingToStrip(s: string)
    requires s != [] && !IsSpace(s[0])
    ensures StripLeft(s) == s
  {
  }

  lemma NumberParses(s: string, pre: string, sign: string, digits: string, post: string)
    requires NumberText(s, pre, sign, digits, post)
    ensures ParseInt(s) == Some(Signed(sign, digits))
  {
    hide NumeralValue, IsNumeral, StripLeft, StripRight, AllSpace;
    NumeralEnds(digits);
    var t := sign + digits;
    assert s == pre + t + post;
    Stripped(pre, t, post);
    if sign == "" {
      assert t == digits;
    } else {
      assert t[0] == sign[0] && t[1..] == digits;
    }
  }

  lemma StrippedFrom(s: string)
    ensures exists pre, post :: AllSpace(pre) && AllSpace(post) && s == pre + StripRight(StripLeft(s)) + post
  {
    hide StripLeft, StripRight, AllSpace;
    var u := StripLeft(s);
    var t := StripRight(u);
    StripLeftPrefix(s);
    StripRightSuffix(u);
    var pre, post := s[..|s| - |u|], u[|t|..];
    assert s == pre + t + post;
  }

  lemma ParsedText(s: string)
    requires ParseInt(s).Some?
    ensures exists pre, sign, digits, post :: NumberText(s, pre, sign, digits, post)
  {
    hide NumeralValue, IsNumeral, StripLeft, StripRight, AllSpace;
    var t := StripRight(StripLeft(s));
    StrippedFrom(s);
    var pre, post :| AllSpace(pre) && AllSpace(post) && s == pre + t + post;
    if t != [] && (t[0] == '-' || t[0] == '+') {
      assert t == t[..1] + t[1..] && s == pre + t[..1] + t[1..] + post;
      assert NumberText(s, pre, t[..1], t[1..], post);
    } else {
      assert s == pre + [] + t + post;
      assert NumberText(s, pre, [], t, post);
    }
  }

  /** int() accepts exactly white space, an optional sign, a numeral, white space, and gives its value. */
  lemma ParseIntExact(s: string, n: int)
    ensures ParseInt(s) == Some(n) <==>
            exists pre, sign, digits, post :: NumberText(s, pre, sign, digits, post) && n == Signed(sign, digits)
  {
    hide ParseInt, NumberText, Signed;
    if ParseInt(s) == Some(n) {
      ParsedText(s);
      var pre, sign, digits, post :| NumberText(s, pre, sign, digits, post);
      NumberParses(s, pre, sign, digits, post);
    }
    forall pre, sign, digits, post | NumberText(s, pre, sign, digits, post)
      ensures ParseInt(s) == Some(Signed(sign, digits))
    {
      NumberParses(s, pre, sign, digits, post);
    }
  }

  function Power10(k: nat): nat {
    if k == 0 then 1 else 10 * Power10(k - 1)
  }

  function DigitCount(s: string): nat {
    if s == [] then 0 else DigitCount(s[..|s| - 1]) + (if IsDigit(s[|s| - 1]) then 1 else 0)
  }

  lemma Shifted(x: nat, p: nat, y: nat, d: nat)
    ensures 10 * (x * p + y) + d == x * (10 * p) + (10 * y + d)
  {
  }

  /** Digits count by place; underscores do not count. */
  lemma {:induction false} ValueByPlace(a: string, b: string)
    ensures NumeralValue(a + b) == NumeralValue(a) * Power10(DigitCount(b)) + NumeralValue(b)
    decreases |b|
  {
    if b == [] {
      assert a + b == a;
    } else {
      var rest := b[..|b| - 1];
      assert (a + b)[..|a + b| - 1] == a + rest;
      ValueByPlace(a, rest);
      if IsDigit(b[|b| - 1]) {
        Shifted(NumeralValue(a), Power10(DigitCount(rest)), NumeralValue(rest), DigitValue(b[|b| - 1]));
      }
    }
  }

  // ---------- the version string ----------

  /** version.rfind('.') */
  function LastDot(s: string): (p: int)
    ensures -1 <= p < |s|
  {
    if s == [] then -1 else if s[|s| - 1] == '.' then |s| - 1 else LastDot(s[..|s| - 1])
  }

  lemma {:induction false} LastDotFinds(s: string)
    ensures LastDot(s) == -1 <==> '.' !in s
    ensures LastDot(s) >= 0 ==> s[LastDot(s)] == '.' && '.' !in s[LastDot(s) + 1..]
  {
    if s != [] && s[|s| - 1] != '.' {
      var t := s[..|s| - 1];
      LastDotFinds(t);
      assert s == t + [s[|s| - 1]];
      if LastDot(t) >= 0 {
        assert s[LastDot(s) + 1..] == t[LastDot(t) + 1..] + [s[|s| - 1]];
      }
    }
  }

  /** The number behind the last dot, or why there is none. */
  function Number(line: string): Option<int> {
    LastDotFinds(line);
    ParseInt(line[LastDot(line) + 1..])
  }

  /** The new version before it is cut to 15 characters: the old one with its last number raised by one. */
  function FullVersion(line: string): string
    requires Number(line).Some?
  {
    line[..LastDot(line) + 1] + TwoDigits(Number(line).value + 1)
  }

  function NewVersion(line: string): Result<string, ImgError> {
    if LastDot(line) == -1 then Ok("1.0.01")
    else if Number(line).None? then Err(BadVersion)
    else
      var v := FullVersion(line);
      Ok(if |v| < 16 then v + seq(16 - |v|, i => '\0') else v[..15] + ['\0'])
  }

  lemma {:induction false} DecimalCut(m: nat, j: nat)
    requires j < |Decimal(m)|
    ensures m > 0 || j == 0
    ensures m > 0 ==> NumeralValue(Decimal(m)[..j]) < m
  {
    var d := Decimal(m);
    if m >= 10 {
      var e := Decimal(m / 10);
      assert d[..j] == e[..j];
      if j < |e| {
        DecimalCut(m / 10, j);
      } else {
        DecimalValue(m / 10);
        assert d[..j] == e;
      }
    } else {
      assert d[..j] == [];
    }
  }

  lemma ParsedWhole(s: string, n: int)
    requires s != [] && !IsSpace(s[0]) && !IsSpace(s[|s| - 1]) && ParseInt(s) == Some(n)
    ensures var minus := s[0] == '-';
            var digits := if minus || s[0] == '+' then s[1..] else s;
            n == (if minus then 0 - NumeralValue(digits) else NumeralValue(digits)) && digits != []
  {
    StripsNothing(s);
  }

  /** A formatted number that lost characters at its end reads as another number, except for a cut "00". */
  lemma CutNumber(n: int, j: nat)
    requires j < |TwoDigits(n)|
    ensures ParseInt(TwoDigits(n)[..j]) == Some(n) <==> n == 0 && j == 1
  {
    hide Decimal, ParseInt, NumeralValue, IsNumeral;
    var m: nat := if n < 0 then -n else n;
    var d, s := Decimal(m), TwoDigits(n)[..j];
    DecimalValue(m);
    if j == 0 {
      NothingParses();
    } else if n < 0 {
      DecimalCut(m, j - 1);
      assert s[1..] == d[..j - 1];
      if ParseInt(s) == Some(n) {
        ParsedWhole(s, n);
      }
    } else if |d| < 2 {
      DecimalShort(m);
      assert s == "0";
      ZeroParses();
    } else {
      DecimalCut(m, j);
      assert s == d[..j];
      if ParseInt(s) == Some(n) {
        ParsedWhole(s, n);
      }
    }
  }

  lemma NothingParses()
    ensures ParseInt([]) == None
  {
  }

  lemma ZeroParses()
    ensures ParseInt("0") == Some(0)
  {
    StripsNothing("0");
    assert NumeralValue("0"[..0]) == 0;
  }

  function Shown(full: string): string {
    if |full| <= 15 then full else full[..15]
  }

  /** The shown version still ends in the number it was given. */
  predicate NumberShown(line: string)
    requires Number(line).Some?
  {
    var shown, p := Shown(FullVersion(line)), LastDot(line);
    p < |shown| && ParseInt(shown[p + 1..]) == Some(Number(line).value + 1)
  }

  /** Character `i` of the new version: the old text up to its last dot, the next number, zeros. */
  function VersionChar(line: string, text: string, p: nat, i: nat): char
    requires p < |line|
  {
    if i == 15 then '\0'
    else if i <= p then line[i]
    else if i - p - 1 < |text| then text[i - p - 1]
    else '\0'
  }

  lemma VersionOutcome(line: string)
    ensures '.' !in line ==> NewVersion(line) == Ok("1.0.01")
    ensures '.' in line && ParseInt(line[LastDot(line) + 1..]).None? ==> NewVersion(line) == Err(BadVersion)
    ensures '.' in line && ParseInt(line[LastDot(line) + 1..]).Some? ==>
              LastDot(line) >= 0 && Number(line).Some? && NewVersion(line).Ok? && |NewVersion(line).value| == 16
  {
    hide ParseInt, TwoDigits, LastDot;
    LastDotFinds(line);
  }

  lemma VersionChars(line: string)
    requires '.' in line && Number(line).Some?
    ensures LastDot(line) >= 0 && NewVersion(line).Ok? && |NewVersion(line).value| == 16
    ensures var text := TwoDigits(Number(line).value + 1);
            forall i :: 0 <= i < 16 ==> NewVersion(line).value[i] == VersionChar(line, text, LastDot(line), i)
  {
    hide ParseInt, TwoDigits, LastDot;
    LastDotFinds(line);
  }

  lemma NumberShownExactly(line: string)
    requires '.' in line && Number(line).Some?
    ensures var p, n := LastDot(line), Number(line).value;
            var length := p + 1 + |TwoDigits(n + 1)|;
            NumberShown(line) <==> length <= 15 || (length == 16 && n == -1)
  {
    hide ParseInt, TwoDigits, LastDot;
    LastDotFinds(line);
    var p, n, full := LastDot(line), Number(line).value, FullVersion(line);
    FormatParses(n + 1);
    var text := TwoDigits(n + 1);
    if |full| <= 15 {
      assert full[p + 1..] == text;
    } else if p < 15 {
      assert full[..15][p + 1..] == text[..14 - p];
      CutNumber(n + 1, 14 - p);
      if n == -1 {
        ZeroFormat();
      }
    }
  }

  /**
   A dotted line gives 16 characters: the old text up to the last dot, the number behind it raised by one, cut
   at 15 characters, and zeros; so the new number reads back exactly when the full text has 15
   characters, or 16 and ends in "00". A line without a dot gives "1.0.01" and no zeros.
  */
  lemma NewVersionSpec(line: string)
    ensures '.' !in line ==> NewVersion(line) == Ok("1.0.01")
    ensures '.' in line && ParseInt(line[LastDot(line) + 1..]).None? ==> NewVersion(line) == Err(BadVersion)
    ensures '.' in line && ParseInt(line[LastDot(line) + 1..]).Some? ==>
              var p, n := LastDot(line), ParseInt(line[LastDot(line) + 1..]).value;
              var text := TwoDigits(n + 1);
              && p >= 0 && NewVersion(line).Ok? && |NewVersion(line).value| == 16
              && (forall i :: 0 <= i < 16 ==> NewVersion(line).value[i] == VersionChar(line, text, p, i))
              && (NumberShown(line) <==> p + 1 + |text| <= 15 || (p + 1 + |text| == 16 && n == -1))
  {
    hide ParseInt, TwoDigits, LastDot, NewVersion, NumberShown, VersionChar;
    VersionOutcome(line);
    if '.' in line && ParseInt(line[LastDot(line) + 1..]).Some? {
      VersionChars(line);
      NumberShownExactly(line);
    }
  }

  lemma {:induction false} LastDotUnique(s: string, q: nat)
    requires q < |s| && s[q] == '.' && '.' !in s[q + 1..]
    ensures LastDot(s) == q
  {
    if q < |s| - 1 {
      var t := s[..|s| - 1];
      assert s[q + 1..] == t[q + 1..] + [s[|s| - 1]];
      LastDotUnique(t, q);
    }
  }

  lemma NoDotInNumber(digits: string, post: string)
    requires IsNumeral(digits) && AllSpace(post)
    ensures '.' !in digits + post
  {
    forall i | 0 <= i < |digits| ensures digits[i] != '.' {
    }
  }

  /** A version file "a.b.n", with white space behind it, becomes "a.b.(n+1)", cut to 15 characters. */
  lemma VersionBumped(prefix: string, digits: string, post: string)
    requires IsNumeral(digits) && AllSpace(post)
    ensures var full := prefix + "." + TwoDigits(NumeralValue(digits) + 1);
            && NewVersion(prefix + "." + (digits + post)).Ok?
            && var v := NewVersion(prefix + "." + (digits + post)).value;
               |v| == 16 && forall i :: 0 <= i < 16 ==> v[i] == if i < 15 && i < |full| then full[i] else '\0'
  {
    hide ParseInt, TwoDigits, LastDot, NumeralValue, IsNumeral, AllSpace, NewVersion, NumberShown;
    var line := prefix + "." + (digits + post);
    NoDotInNumber(digits, post);
    assert line[|prefix|] == '.' && line[|prefix| + 1..] == digits + post;
    LastDotUnique(line, |prefix|);
    assert digits + post == [] + [] + digits + post;
    NoSpace();
    NumberParses(digits + post, [], [], digits, post);
    NewVersionSpec(line);
  }

  lemma NoSpace()
    ensures AllSpace([])
  {
  }

  /** The version file of the repository, Bin/version.txt. */
  lemma RepositoryVersion()
    ensures NewVersion("1.0.06\n") == Ok("1.0.07" + seq(10, i => '\0'))
  {
    hide NewVersion;
    assert "06"[..1] == "0" && "0"[..0] == "";
    assert NumeralValue("0") == 0 && NumeralValue("06") == 6;
    assert TwoDigits(7) == "07";
    VersionBumped("1.0", "06", "\n");
    assert "1.0" + "." + ("06" + "\n") == "1.0.06\n";
    var v := NewVersion("1.0.06\n").value;
    assert v == "1.0.07" + seq(10, i => '\0');
  }

  lemma ZeroFormat()
    ensures TwoDigits(0) == "00"
  {
  }

  // ---------- the image ----------

  datatype Params = Params(imgType: int, zipType: int, runAddr: int, updAddr: int)

  predicate IsAscii(s: string) {
    forall i :: 0 <= i < |s| ==> s[i] < '\U{80}'
  }

  /** s.encode('utf-8') for ASCII text. */
  function Encode(s: string): (r: seq<bv8>)
    requires IsAscii(s)
    ensures |r| == |s|
  {
    seq(|s|, i requires 0 <= i < |s| => ByteOf(s[i] as int))
  }

  lemma {:induction false} DecimalAscii(n: nat)
    ensures IsAscii(Decimal(n))
  {
    if n >= 10 {
      DecimalAscii(n / 10);
    }
  }

  lemma NewVersionAscii(line: string)
    requires IsAscii(line)
    ensures NewVersion(line).Ok? ==> IsAscii(NewVersion(line).value)
  {
    hide ParseInt, Decimal, LastDot;
    if LastDot(line) >= 0 && Number(line).Some? {
      var n := Number(line).value + 1;
      DecimalAscii(if n < 0 then -n else n);
    }
  }

  predicate Packable(n: int, limit: nat) { 0 <= n < limit }

  /** struct.pack accepts the parameters and the length of the payload. */
  predicate FieldsPack(params: Params, bin: seq<bv8>) {
    && Packable(params.imgType, 0x1_0000) && Packable(params.zipType, 0x1_0000)
    && Packable(params.runAddr, 0x1_0000_0000) && Packable(params.updAddr, 0x1_0000_0000)
    && Packable(|bin|, 0x1_0000_0000)
  }

  /** The header for these inputs, or why the script stops. */
  function HeaderFor(line: string, params: Params, bin: seq<bv8>, src: Option<seq<bv8>>): Result<Header, ImgError>
    requires IsAscii(line)
  {
    match NewVersion(line)
    case Err(e) => Err(e)
    case Ok(version) =>
      if !FieldsPack(params, bin) then Err(BadField)
      else if params.zipType != 0 && src.None? then Err(NoSource)
      else
        var run := if params.zipType == 0 then bin else src.value;
        if !Packable(|run|, 0x1_0000_0000) then Err(BadField)
        else
          NewVersionAscii(line);
          Ok(Header(MAGIC, params.imgType, params.zipType, params.runAddr, |run|, FlsImage.ScriptCrc(run),
                    params.updAddr, |bin|, FlsImage.ScriptCrc(bin), 0, Encode(version)))
  }

  /** The version line has no dot, or a number behind its last one. */
  predicate Versioned(line: string) {
    LastDotFinds(line);
    '.' !in line || ParseInt(line[LastDot(line) + 1..]).Some?
  }

  /** Which inputs the script refuses, and why: the four cases exclude each other and leave none out. */
  lemma HeaderOutcome(line: string, params: Params, bin: seq<bv8>, src: Option<seq<bv8>>)
    requires IsAscii(line)
    ensures var r := HeaderFor(line, params, bin, src);
            var packs := 0 <= params.imgType < 0x1_0000 && 0 <= params.zipType < 0x1_0000
                      && 0 <= params.runAddr < 0x1_0000_0000 && 0 <= params.updAddr < 0x1_0000_0000
                      && |bin| < 0x1_0000_0000;
            if !Versioned(line) then r == Err(BadVersion)
            else if !packs then r == Err(BadField)
            else if params.zipType != 0 && src.None? then r == Err(NoSource)
            else if params.zipType != 0 && |src.value| >= 0x1_0000_0000 then r == Err(BadField)
            else r.Ok?
  {
    hide NewVersion, ParseInt, LastDot, FlsImage.ScriptCrc, Encode, Number;
    VersionOutcome(line);
    LastDotFinds(line);
  }

  function Padding(n: nat): nat {
    if n % 4 == 0 then 0 else 4 - n % 4
  }

  function ImageFile(h: Header, bin: seq<bv8>): seq<bv8> {
    Sealed(h) + bin + Fill(0, Padding(|bin|))
  }

  /** The fields as the script packs them one by one. */
  method PackFields(line: string, params: Params, bin: seq<bv8>, src: Option<seq<bv8>>)
    returns (r: Result<seq<bv8>, ImgError>)
    requires IsAscii(line)
    ensures match HeaderFor(line, params, bin, src)
            case Err(e) => r == Err(e)
            case Ok(h) => r == Ok(Fields(h))
  {
    hide Crc, Fields, NewVersion, Encode, FlsImage.ScriptCrc;
    var version := NewVersion(line);
    if version.Err? {
      return Err(version.error);
    }
    var binCrc := FlsImage.ScriptCrc(bin);
    if !FieldsPack(params, bin) {
      return Err(BadField);
    }
    var runLen, runCrc := |bin|, binCrc;
    if params.zipType != 0 {
      if src.None? {
        return Err(NoSource);
      }
      runLen, runCrc := |src.value|, FlsImage.ScriptCrc(src.value);
      if !Packable(runLen, 0x1_0000_0000) {
        return Err(BadField);
      }
    }
    NewVersionAscii(line);
    ghost var h := Header(MAGIC, params.imgType, params.zipType, params.runAddr, runLen, runCrc,
                          params.updAddr, |bin|, binCrc, 0, Encode(version.value));
    assert HeaderFor(line, params, bin, src) == Ok(h);
    var fields := Join(params, runLen, runCrc, |bin|, binCrc, Encode(version.value));
    r := Ok(fields);
  }

  method Join(params: Params, runLen: nat, runCrc: bv32, binLen: nat, binCrc: bv32, version: seq<bv8>)
    returns (fields: seq<bv8>)
    requires params.imgType >= 0 && params.zipType >= 0 && params.runAddr >= 0 && params.updAddr >= 0
    ensures fields == Fields(Header(MAGIC, params.imgType, params.zipType, params.runAddr, runLen, runCrc,
                                    params.updAddr, binLen, binCrc, 0, version))
  {
    hide LE, WordLE;
    fields := LE(MAGIC, 4) + LE(params.imgType, 2) + LE(params.zipType, 2) + LE(params.runAddr, 4)
      + LE(runLen, 4) + WordLE(runCrc) + LE(params.updAddr, 4) + LE(binLen, 4) + WordLE(binCrc)
      + LE(0, 4) + version;
  }

  method MakeImage(line: string, params: Params, bin: seq<bv8>, src: Option<seq<bv8>>)
    returns (r: Result<seq<bv8>, ImgError>)
    requires IsAscii(line)
    ensures match HeaderFor(line, params, bin, src)
            case Err(e) => r == Err(e)
            case Ok(h) => r == Ok(ImageFile(h, bin))
  {
    hide Crc, WordLE, Fields, HeaderFor, Fill;
    var fields := PackFields(line, params, bin, src);
    if fields.Err? {
      return Err(fields.error);
    }
    var content := WriteOut(fields.value, bin);
    r := Ok(content);
  }

  /** Writes the fields, their checksum, the payload and zeros up to a word boundary. */
  method WriteOut(fields: seq<bv8>, bin: seq<bv8>) returns (content: seq<bv8>)
    ensures content == fields + WordLE(Crc(SEED, fields)) + bin + Fill(0, Padding(|bin|))
  {
    hide Crc, WordLE, WriteAt, Fill, FlsImage.ScriptCrc;
    FlsImage.ScriptCrcIs(fields);
    var out := new File([]);
    out.Write(fields);
    out.Write(WordLE(FlsImage.ScriptCrc(fields)));
    out.Write(bin);
    var dummy := |bin| % 4;
    if dummy != 0 {
      dummy := 4 - |bin| % 4;
      out.Write(Fill(0, dummy));
    }
    content := out.content;
  }

  /** A dotted version line is what makes the header 56 bytes long. */
  lemma HeaderLength(line: string, params: Params, bin: seq<bv8>, src: Option<seq<bv8>>)
    requires IsAscii(line) && HeaderFor(line, params, bin, src).Ok?
    ensures |Sealed(HeaderFor(line, params, bin, src).value)| == HEADER_LEN <==> '.' in line
  {
    hide Crc, ParseInt, TwoDigits, LastDot;
    NewVersionSpec(line);
  }

  /** With a dotted version line the header fits its 56 bytes, and its checksums are those the flash driver computes. */
  lemma HeaderContents(line: string, params: Params, bin: seq<bv8>, src: Option<seq<bv8>>)
    requires IsAscii(line) && '.' in line && HeaderFor(line, params, bin, src).Ok?
    ensures var h := HeaderFor(line, params, bin, src).value;
            var run := if params.zipType == 0 then bin else src.value;
            && Fits(h) && h.magic == MAGIC && h.imgType == params.imgType && h.zipType == params.zipType
            && h.runAddr == params.runAddr && h.updAddr == params.updAddr && h.updLen == |bin| && h.runLen == |run|
            && h.updChecksum == Updated(SEED, bin, 0) && h.runChecksum == Updated(SEED, run, 0)
            && h.updNo == 0 && h.version[15] == 0
            && NewVersion(line).Ok? && |NewVersion(line).value| == |h.version| == 16
            && forall i :: 0 <= i < 16 ==> ValueOf(h.version[i]) == NewVersion(line).value[i] as int
  {
    hide Crc, NewVersion, ParseInt, TwoDigits, LastDot, FlsImage.ScriptCrc, ValueOf, ByteOf, NumberShown;
    NewVersionSpec(line);
    NewVersionAscii(line);
    var run := if params.zipType == 0 then bin else src.value;
    FlsImage.ScriptCrcIs(bin);
    FlsImage.ScriptCrcIs(run);
    PlainMode(SEED, bin);
    PlainMode(SEED, run);
    EncodedChars(NewVersion(line).value);
    ByteZero();
  }

  lemma ByteZero()
    ensures ByteOf(0) == 0
  {
  }

  lemma EncodedChars(s: string)
    requires IsAscii(s)
    ensures forall i :: 0 <= i < |s| ==> ValueOf(Encode(s)[i]) == s[i] as int
  {
    hide ValueOf, ByteOf;
    forall i | 0 <= i < |s| ensures ValueOf(Encode(s)[i]) == s[i] as int {
      ValueOfByte(s[i] as int);
    }
  }

  /** Parsing an image file gives back every header field and the exact payload; the file ends on a word boundary. */
  lemma ImageRoundTrip(h: Header, bin: seq<bv8>)
    requires Fits(h) && h.updLen == |bin|
    ensures var file := ImageFile(h, bin);
            && |file| == 56 + |bin| + Padding(|bin|) && |file| % 4 == 0
            && Parse(file[..56]) == h && ChecksumOk(file[..56])
            && file[56..56 + Parse(file[..56]).updLen] == bin
            && forall i :: 56 + |bin| <= i < |file| ==> file[i] == 0
  {
    hide Crc, Sealed, Parse, ChecksumOk;
    SealedRoundTrip(h);
    var file := ImageFile(h, bin);
    assert file[..56] == Sealed(h) && file[56..56 + |bin|] == bin;
  }

  /** At `at` the file holds header `h`, and 256 bytes behind it the payload. */
  ghost predicate Holds(file: seq<bv8>, at: nat, h: Header, bin: seq<bv8>) {
    && |file| >= at + 56 && Parse(file[at..at + 56]) == h
    && (bin != [] ==> |file| >= at + 256 + |bin| && file[at + 256..at + 256 + |bin|] == bin)
  }

  /** Through both tools: images built here and packed into an FLS file are found there with header and payload. */
  lemma PackedImagesRecovered(hs: Header, sbin: seq<bv8>, ha: Header, abin: seq<bv8>)
    requires Fits(hs) && Fits(ha)
    requires |sbin| + Padding(|sbin|) <= FlsImage.SEC_TOTAL - 256
    ensures var file := FlsImage.FlsFile(ImageFile(hs, sbin), ImageFile(ha, abin));
            Holds(file, FlsImage.SEC_AT, hs, sbin) && Holds(file, FlsImage.APP_AT, ha, abin)
  {
    hide Sealed, ImageFile, FlsImage.FlsFile, Holds, FlsImage.AppPart, FlsImage.SecOf, FlsImage.AppOf;
    var sec, app := ImageFile(hs, sbin), ImageFile(ha, abin);
    var file := FlsImage.FlsFile(sec, app);
    ImageLength(hs, sbin);
    ImageLength(ha, abin);
    FlsImage.FlsInputsBack(sec, app);
    SecHolds(file, hs, sbin);
    AppHolds(file, ha, abin);
  }

  lemma ImageLength(h: Header, bin: seq<bv8>)
    requires Fits(h)
    ensures |ImageFile(h, bin)| == 56 + |bin| + Padding(|bin|)
  {
    hide Sealed, Padding;
  }

  lemma SecHolds(file: seq<bv8>, h: Header, bin: seq<bv8>)
    requires Fits(h) && |file| >= FlsImage.SEC_AT + 200 + |ImageFile(h, bin)| && |ImageFile(h, bin)| >= 56
    requires FlsImage.SecOf(file, |ImageFile(h, bin)|) == ImageFile(h, bin)
    ensures Holds(file, FlsImage.SEC_AT, h, bin)
  {
    hide Sealed, ImageFile, Holds;
    HoldsBack(file, FlsImage.SEC_AT, h, bin, ImageFile(h, bin));
  }

  lemma AppHolds(file: seq<bv8>, h: Header, bin: seq<bv8>)
    requires Fits(h) && |ImageFile(h, bin)| >= 56
    requires |file| == FlsImage.APP_AT + if |ImageFile(h, bin)| == 56 then 56 else 200 + |ImageFile(h, bin)|
    requires FlsImage.AppOf(file, |ImageFile(h, bin)|) == ImageFile(h, bin)
    ensures Holds(file, FlsImage.APP_AT, h, bin)
  {
    hide Sealed, ImageFile, Holds;
    HoldsBack(file, FlsImage.APP_AT, h, bin, ImageFile(h, bin));
  }

  datatype Inputs = Inputs(line: string, params: Params, bin: seq<bv8>, src: Option<seq<bv8>>)
  datatype BuildError = Image(image: ImgError) | Fls(fls: FlsImage.FlsError)

  function HeaderOf(x: Inputs): Result<Header, ImgError>
    requires IsAscii(x.line)
  {
    HeaderFor(x.line, x.params, x.bin, x.src)
  }

  /**
   makeimg.py for the boot loader and for the application, then makeimg_fls.py: the build stops with the
   first error of the three, and else, for dotted version lines, the FLS file holds both headers as makeimg
   made them and both payloads.
  */
  method BuildAndPack(boot: Inputs, app: Inputs) returns (r: Result<seq<bv8>, BuildError>)
    requires IsAscii(boot.line) && IsAscii(app.line)
    ensures HeaderOf(boot).Err? ==> r == Err(Image(HeaderOf(boot).error))
    ensures HeaderOf(boot).Ok? && HeaderOf(app).Err? ==> r == Err(Image(HeaderOf(app).error))
    ensures HeaderOf(boot).Ok? && HeaderOf(app).Ok? && '.' in boot.line && '.' in app.line ==>
              var hs, ha := HeaderOf(boot).value, HeaderOf(app).value;
              && (r.Err? ==> r == Err(Fls(FlsImage.TooLong)))
              && (r.Err? <==> |FlsImage.FlsBody(ImageFile(hs, boot.bin), ImageFile(ha, app.bin))| - 56 >= 0x1_0000_0000)
              && (r.Ok? && |boot.bin| + Padding(|boot.bin|) <= FlsImage.SEC_TOTAL - 256 ==>
                    Holds(r.value, FlsImage.SEC_AT, hs, boot.bin) && Holds(r.value, FlsImage.APP_AT, ha, app.bin))
  {
    hide HeaderFor, FlsImage.FlsFile, FlsImage.FlsBody, FlsImage.StartsWithMagic, ImageFile, Holds;
    var sec := MakeImage(boot.line, boot.params, boot.bin, boot.src);
    if sec.Err? {
      return Err(Image(sec.error));
    }
    var img := MakeImage(app.line, app.params, app.bin, app.src);
    if img.Err? {
      return Err(Image(img.error));
    }
    var fls := FlsImage.MakeFls(sec.value, img.value);
    if '.' in boot.line && '.' in app.line {
      HeaderFits(boot);
      HeaderFits(app);
      MagicAccepted(HeaderOf(boot).value, boot.bin);
      MagicAccepted(HeaderOf(app).value, app.bin);
      if |boot.bin| + Padding(|boot.bin|) <= FlsImage.SEC_TOTAL - 256 {
        PackedImagesRecovered(HeaderOf(boot).value, boot.bin, HeaderOf(app).value, app.bin);
      }
    }
    if fls.Err? {
      return Err(Fls(fls.error));
    }
    r := Ok(fls.value);
  }

  lemma HeaderFits(x: Inputs)
    requires IsAscii(x.line) && '.' in x.line && HeaderOf(x).Ok?
    ensures Fits(HeaderOf(x).value) && HeaderOf(x).value.magic == MAGIC
  {
    hide HeaderFor, Updated, NewVersion, Encode;
    HeaderContents(x.line, x.params, x.bin, x.src);
  }

  lemma MagicAccepted(h: Header, bin: seq<bv8>)
    requires Fits(h) && h.magic == MAGIC
    ensures FlsImage.StartsWithMagic(ImageFile(h, bin))
  {
    hide Crc, LE, FromLE, WordLE, Fill;
    FieldSlices(h, Sealed(h));
    assert Power256(4) == 0x1_0000_0000;
    FromLEOfLE(h.magic, 4);
    var file := ImageFile(h, bin);
    assert file[..4] == Sealed(h)[..4];
    MagicBytes(file[..4]);
  }

  lemma HoldsBack(file: seq<bv8>, at: nat, h: Header, bin: seq<bv8>, image: seq<bv8>)
    requires Fits(h) && image == ImageFile(h, bin) && |file| >= at + 56
    requires var n := if |image| == 56 then 0 else |image| - 56;
             && (n > 0 ==> |file| >= at + 256 + n)
             && image == file[at..at + 56] + if n == 0 then [] else file[at + 256..at + 256 + n]
    ensures Holds(file, at, h, bin)
  {
    hide Crc, Sealed, Parse, ChecksumOk;
    SealedRoundTrip(h);
    assert image[..56] == Sealed(h) && image[..56] == file[at..at + 56];
    if bin != [] {
      var body := file[at + 256..at + 256 + (|image| - 56)];
      assert image[56..] == bin + Fill(0, Padding(|bin|));
      assert image[56..] == body;
      assert body[..|bin|] == bin;
      assert body[..|bin|] == file[at + 256..at + 256 + |bin|];
    }
  }
}
