/**
 * Text handling of the netlist reader: C-string access, the character classes
 * of <ctype.h> in the C locale, the component letters, SI-suffixed magnitudes,
 * the `" %c %hhu %hhu %47s"` field split of one line, and the split of a
 * whole text into lines.
 *
 * A C string is a `string` read through At: the end of the sequence and an
 * embedded '\0' both terminate it. One `char` stands for one C `char`, a
 * byte, so every length and buffer bound below counts bytes. The backend's
 * decimal conversion (str_to_rat) is not part of this model: it is the
 * parameter `toRat`.
 */
module Netlist {

  import opened Maybe

  /** text[i] of a NUL-terminated string. */
  function At(s: string, i: nat): char
  {
    if i < |s| then s[i] else '\0'
  }

  /** isspace in the C locale. */
  predicate IsSpace(c: char)
  {
    c == ' ' || c == '\t' || c == '\n' || c == '\U{000B}' || c == '\U{000C}' || c == '\r'
  }

  /** isalpha in the C locale. */
  predicate IsAlpha(c: char)
  {
    ('A' <= c <= 'Z') || ('a' <= c <= 'z')
  }

  predicate IsDigit(c: char)
  {
    '0' <= c <= '9'
  }

  /** The characters of s up to its first NUL: what a C function reading s sees. */
  function CStr(s: string): (r: string)
    ensures |r| <= |s| && r == s[..|r|]
    ensures '\0' !in r
    ensures |r| < |s| ==> s[|r|] == '\0'
  {
    if s == [] || s[0] == '\0' then [] else [s[0]] + CStr(s[1..])
  }

  // ---------------------------------------------------------------------
  // skip_ws
  // ---------------------------------------------------------------------

  /** The first position at or after i that does not hold white space. */
  function FirstNonSpace(s: string, i: nat): (r: nat)
    ensures i <= r && (r > i ==> r <= |s|)
    ensures forall k :: i <= k < r ==> IsSpace(At(s, k))
    ensures !IsSpace(At(s, r))
    decreases |s| - i
  {
    if IsSpace(At(s, i)) then FirstNonSpace(s, i + 1) else i
  }

  /** skip_ws: advances the cursor over white space, stopping at a NUL. */
  method SkipWs(text: string, i: nat) returns (j: nat)
    ensures j == FirstNonSpace(text, i)
  {
    j := i;
    while At(text, j) != '\0' && IsSpace(At(text, j))
      invariant i <= j && (j > i ==> j <= |text|)
      invariant FirstNonSpace(text, j) == FirstNonSpace(text, i)
      decreases |text| - j
    {
      j := j + 1;
    }
  }

  // ---------------------------------------------------------------------
  // kind_from_letter
  // ---------------------------------------------------------------------

  /** Component kinds, in the order of the source's enumeration (COMP_INVALID = 0). */
  datatype Kind =
    | Invalid | Wire | DcVoltageSrc | AcVoltageSrc | DcCurrentSrc | AcCurrentSrc
    | Resistor | Capacitor | Inductor | Vccs | Vcvs | Ccvs | Cccs

  const LETTERS: string := "RrVvIiCcLlGgEeHhFfWw"

  function KindFromLetter(c: char): (k: Kind)
    ensures k == Invalid <==> c !in LETTERS
    ensures k != AcVoltageSrc
  {
    match c
    case 'R' => Resistor
    case 'r' => Resistor
    case 'V' => DcVoltageSrc
    case 'v' => DcVoltageSrc
    case 'I' => DcCurrentSrc
    case 'i' => AcCurrentSrc
    case 'C' => Capacitor
    case 'c' => Capacitor
    case 'L' => Inductor
    case 'l' => Inductor
    case 'G' => Vccs
    case 'g' => Vccs
    case 'E' => Vcvs
    case 'e' => Vcvs
    case 'H' => Ccvs
    case 'h' => Ccvs
    case 'F' => Cccs
    case 'f' => Cccs
    case 'W' => Wire
    case 'w' => Wire
    case _ => Invalid
  }

  /** A netlist letter for each kind a letter can select (AC voltage sources have none). */
  function LetterOf(k: Kind): (c: char)
    requires k != Invalid && k != AcVoltageSrc
    ensures c in LETTERS
  {
    match k
    case Wire => 'W'
    case DcVoltageSrc => 'V'
    case DcCurrentSrc => 'I'
    case AcCurrentSrc => 'i'
    case Resistor => 'R'
    case Capacitor => 'C'
    case Inductor => 'L'
    case Vccs => 'G'
    case Vcvs => 'E'
    case Ccvs => 'H'
    case Cccs => 'F'
  }

  /** Every kind except Invalid and AcVoltageSrc is selected by its letter. */
  lemma KindLetterRoundTrip(k: Kind)
    requires k != Invalid && k != AcVoltageSrc
    ensures KindFromLetter(LetterOf(k)) == k
  {
  }

  // ---------------------------------------------------------------------
  // parse_si_scalar
  // ---------------------------------------------------------------------

  predicate IsTokenEnd(c: char)
  {
    c == '\0' || c == '\n' || c == '\r'
  }

  /** Length of the token: up to the first NUL, '\n' or '\r'. */
  function TokenLength(tok: string, k: nat): (r: nat)
    ensures k <= r && (r > k ==> r <= |tok|)
    ensures forall j :: k <= j < r ==> !IsTokenEnd(At(tok, j))
    ensures IsTokenEnd(At(tok, r))
    decreases |tok| - k
  {
    if IsTokenEnd(At(tok, k)) then k else TokenLength(tok, k + 1)
  }

  /** SI magnitude suffixes. Scale factors are exact reals here. */
  function ScaleOf(c: char): Option<real>
  {
    match c
    case 'k' => Some(1000.0)
    case 'K' => Some(1000.0)
    case 'M' => Some(1000000.0)
    case 'G' => Some(1000000000.0)
    case 'm' => Some(0.001)
    case 'u' => Some(0.000001)
    case 'n' => Some(0.000000001)
    case _ => None
  }

  /** The value parse_si_scalar computes. */
  function SiScalar(tok: string, toRat: string -> real): real
  {
    var len := TokenLength(tok, 0);
    if len == 0 then 0.0
    else
      match ScaleOf(tok[len - 1])
      case Some(scale) =>
        if len < 48 then toRat(tok[..len - 1]) * scale else toRat(CStr(tok))
      case None => toRat(CStr(tok))
  }

  /** parse_si_scalar: measures the token, then applies the suffix's scale. */
  method ParseSiScalar(tok: string, toRat: string -> real) returns (r: real)
    ensures r == SiScalar(tok, toRat)
  {
    var len := 0;
    while At(tok, len) != '\0' && At(tok, len) != '\n' && At(tok, len) != '\r'
      invariant len <= TokenLength(tok, 0)
      invariant TokenLength(tok, len) == TokenLength(tok, 0)
      decreases |tok| - len
    {
      len := len + 1;
    }
    if len == 0 {
      return 0.0;
    }
    var scale := ScaleOf(tok[len - 1]);
    if scale.Some? && len < 48 {
      return toRat(tok[..len - 1]) * scale.value;
    }
    r := toRat(CStr(tok));
  }

  predicate PlainText(s: string)
  {
    forall k :: 0 <= k < |s| ==> !IsTokenEnd(s[k])
  }

  lemma {:induction false} TokenLengthOfPlain(s: string, rest: string, k: nat)
    requires PlainText(s) && k <= |s|
    requires rest == [] || IsTokenEnd(rest[0])
    ensures TokenLength(s + rest, k) == |s|
    decreases |s| - k
  {
    if k < |s| {
      assert At(s + rest, k) == s[k];
      TokenLengthOfPlain(s, rest, k + 1);
    } else {
      assert At(s + rest, k) == if rest == [] then '\0' else rest[0];
    }
  }

  /** A short digit string with a suffix is scaled; the token ends at '\n', '\r' or NUL. */
  lemma SiScalarSuffixed(p: string, s: char, rest: string, toRat: string -> real)
    requires PlainText(p + [s]) && |p| < 47 && ScaleOf(s).Some?
    requires rest == [] || IsTokenEnd(rest[0])
    ensures SiScalar(p + [s] + rest, toRat) == toRat(p) * ScaleOf(s).value
  {
    var tok := p + [s] + rest;
    TokenLengthOfPlain(p + [s], rest, 0);
    assert tok[|p|] == s;
    assert tok[..|p|] == p;
  }

  /** A token whose last character is not a suffix goes to the backend whole. */
  lemma SiScalarPlain(t: string, toRat: string -> real)
    requires PlainText(t) && t != [] && ScaleOf(t[|t| - 1]).None?
    ensures SiScalar(t, toRat) == toRat(CStr(t))
  {
    TokenLengthOfPlain(t, [], 0);
    assert t + [] == t;
  }

  /** An empty token (one that starts at a terminator) is zero. */
  lemma SiScalarEmpty(t: string, toRat: string -> real)
    requires t == [] || IsTokenEnd(t[0])
    ensures SiScalar(t, toRat) == 0.0
  {
  }

  // ---------------------------------------------------------------------
  // sscanf(line, " %c %hhu %hhu %47s", ...)
  // ---------------------------------------------------------------------

  /** The four fields that the format converts. */
  datatype Fields = Fields(letter: char, n1: nat, n2: nat, tok: string)

  function DigitValue(c: char): nat
    requires IsDigit(c)
  {
    (c as int - '0' as int) as nat
  }

  /** The decimal value of a digit string. */
  function DecValue(ds: string): nat
    requires forall k :: 0 <= k < |ds| ==> IsDigit(ds[k])
    decreases |ds|
  {
    if ds == [] then 0 else DecValue(ds[..|ds| - 1]) * 10 + DigitValue(ds[|ds| - 1])
  }

  /** The first position at or after i that does not hold a decimal digit. */
  function DigitsEnd(s: string, i: nat): (r: nat)
    ensures i <= r && (r > i ==> r <= |s|)
    ensures forall k :: i <= k < r ==> IsDigit(At(s, k))
    ensures !IsDigit(At(s, r))
    decreases |s| - i
  {
    if IsDigit(At(s, i)) then DigitsEnd(s, i + 1) else i
  }

  const ULONG_LIMIT: nat := 0x1_0000_0000_0000_0000

  /**
   * The unsigned char that %hhu stores: the decimal value is read like
   * strtoul (saturating at ULONG_MAX, a leading '-' negating modulo 2^64),
   * then truncated to 8 bits.
   */
  function ToU8(negative: bool, v: nat): (r: nat)
    ensures r < 256
  {
    if v >= ULONG_LIMIT then 255
    else if negative then (ULONG_LIMIT - v) % 256
    else v % 256
  }

  /** %hhu at position i (white space already skipped): the value and the end of the number. */
  function ScanU8(s: string, i: nat): (r: Option<(nat, nat)>)
    ensures r.Some? ==> r.value.0 < 256 && i < r.value.1 <= |s|
  {
    var signed := At(s, i) == '+' || At(s, i) == '-';
    var d := if signed then i + 1 else i;
    var e := DigitsEnd(s, d);
    if e == d then None
    else
      var ds := s[d..e];
      assert forall k :: 0 <= k < |ds| ==> ds[k] == At(s, d + k);
      Some((ToU8(At(s, i) == '-', DecValue(ds)), e))
  }

  /** %47s at position i: at most max characters up to white space or NUL. */
  function ScanWord(s: string, i: nat, max: nat): (w: string)
    ensures |w| <= max
    ensures forall k :: 0 <= k < |w| ==> !IsSpace(w[k]) && w[k] != '\0'
    decreases max
  {
    var c := At(s, i);
    if max == 0 || c == '\0' || IsSpace(c) then [] else [c] + ScanWord(s, i + 1, max - 1)
  }

  /** The four conversions, or None when sscanf would return fewer than 4. */
  function Scan(line: string): Option<Fields>
  {
    var i0 := FirstNonSpace(line, 0);
    if At(line, i0) == '\0' then None
    else
      var letter := At(line, i0);
      match ScanU8(line, FirstNonSpace(line, i0 + 1))
      case None => None
      case Some((n1, e1)) =>
        match ScanU8(line, FirstNonSpace(line, e1))
        case None => None
        case Some((n2, e2)) =>
          var i3 := FirstNonSpace(line, e2);
          if At(line, i3) == '\0' then None
          else Some(Fields(letter, n1, n2, ScanWord(line, i3, 47)))
  }

  // The writer that Scan inverts: "<letter> <n1> <n2> <tok>".

  function DigitChar(d: nat): (c: char)
    requires d < 10
    ensures IsDigit(c) && DigitValue(c) == d
  {
    ('0' as int + d) as char
  }

  /** The decimal numeral of n, without leading zeros. */
  function NatToDec(n: nat): (ds: string)
    ensures ds != [] && forall k :: 0 <= k < |ds| ==> IsDigit(ds[k])
    decreases n
  {
    if n < 10 then [DigitChar(n)] else NatToDec(n / 10) + [DigitChar(n % 10)]
  }

  lemma {:induction false} DecValueOfNatToDec(n: nat)
    ensures DecValue(NatToDec(n)) == n
    decreases n
  {
    var ds := NatToDec(n);
    if n >= 10 {
      DecValueOfNatToDec(n / 10);
      assert ds[..|ds| - 1] == NatToDec(n / 10);
    }
  }

  predicate IsWord(t: string)
  {
    forall k :: 0 <= k < |t| ==> !IsSpace(t[k]) && t[k] != '\0'
  }

  function FormatLine(f: Fields): string
    requires f.n1 < 256 && f.n2 < 256
  {
    [f.letter] + " " + NatToDec(f.n1) + " " + NatToDec(f.n2) + " " + f.tok
  }

  lemma {:induction false} FirstNonSpaceAt(s: string, i: nat)
    requires i < |s| && !IsSpace(s[i])
    ensures FirstNonSpace(s, i) == i
  {
  }

  /** w occurs in s at position i. */
  predicate OccursAt(s: string, i: nat, w: string)
  {
    i + |w| <= |s| && s[i..i + |w|] == w
  }

  lemma {:induction false} DigitsEndAt(s: string, i: nat, ds: string)
    requires OccursAt(s, i, ds) && forall k :: 0 <= k < |ds| ==> IsDigit(ds[k])
    requires !IsDigit(At(s, i + |ds|))
    ensures DigitsEnd(s, i) == i + |ds|
    decreases |ds|
  {
    if ds != [] {
      assert s[i] == s[i..i + |ds|][0];
      assert s[i + 1..i + |ds|] == ds[1..];
      DigitsEndAt(s, i + 1, ds[1..]);
    }
  }

  lemma {:induction false} ScanWordAt(s: string, i: nat, t: string, max: nat)
    requires OccursAt(s, i, t) && i + |t| == |s| && IsWord(t) && |t| <= max
    ensures ScanWord(s, i, max) == t
    decreases |t|
  {
    if t != [] {
      assert s[i] == s[i..i + |t|][0];
      assert s[i + 1..i + |t|] == t[1..];
      ScanWordAt(s, i + 1, t[1..], max - 1);
    }
  }

  lemma ScanU8At(s: string, i: nat, n: nat)
    requires n < 256
    requires OccursAt(s, i, NatToDec(n)) && At(s, i + |NatToDec(n)|) == ' '
    ensures ScanU8(s, i) == Some((n, i + |NatToDec(n)|))
  {
    var ds := NatToDec(n);
    assert s[i] == s[i..i + |ds|][0];
    DigitsEndAt(s, i, ds);
    DecValueOfNatToDec(n);
  }

  /** The middle piece of a three-part concatenation occurs after the first. */
  lemma OccursInConcat(a: string, w: string, b: string)
    ensures OccursAt(a + w + b, |a|, w)
    ensures b != [] ==> At(a + w + b, |a| + |w|) == b[0]
  {
    assert (a + w + b)[|a|..|a| + |w|] == w;
  }

  lemma SkipOneSpace(s: string, i: nat)
    requires At(s, i) == ' ' && !IsSpace(At(s, i + 1))
    ensures FirstNonSpace(s, i) == i + 1
  {
  }

  lemma ScanSteps(line: string, letter: char, n1: nat, e1: nat, n2: nat, e2: nat, tok: string)
    requires FirstNonSpace(line, 0) == 0 && At(line, 0) == letter && letter != '\0'
    requires FirstNonSpace(line, 1) == 2 && ScanU8(line, 2) == Some((n1, e1))
    requires FirstNonSpace(line, e1) == e1 + 1 && ScanU8(line, e1 + 1) == Some((n2, e2))
    requires FirstNonSpace(line, e2) == e2 + 1 && At(line, e2 + 1) != '\0'
    requires ScanWord(line, e2 + 1, 47) == tok
    ensures Scan(line) == Some(Fields(letter, n1, n2, tok))
  {
  }

  /** Where the pieces of "<letter> <n1> <n2> <tok>" sit in the line. */
  lemma FormatLineLayout(f: Fields)
    requires f.n1 < 256 && f.n2 < 256
    ensures var line, d1, d2 := FormatLine(f), NatToDec(f.n1), NatToDec(f.n2);
      && At(line, 0) == f.letter && At(line, 1) == ' '
      && OccursAt(line, 2, d1) && At(line, 2 + |d1|) == ' '
      && OccursAt(line, 3 + |d1|, d2) && At(line, 3 + |d1| + |d2|) == ' '
      && OccursAt(line, 4 + |d1| + |d2|, f.tok) && 4 + |d1| + |d2| + |f.tok| == |line|
  {
    var d1, d2 := NatToDec(f.n1), NatToDec(f.n2);
    var line := FormatLine(f);
    var p1 := [f.letter] + " ";
    var p2 := p1 + d1 + " ";
    var p3 := p2 + d2 + " ";
    var post2 := " " + f.tok;
    var post1 := " " + d2 + post2;
    assert line == p1 + d1 + post1;
    OccursInConcat(p1, d1, post1);
    assert line == p2 + d2 + post2;
    OccursInConcat(p2, d2, post2);
    assert line == p3 + f.tok + [];
    OccursInConcat(p3, f.tok, []);
  }

  lemma OccursFirst(s: string, i: nat, w: string)
    requires OccursAt(s, i, w) && w != []
    ensures At(s, i) == w[0]
  {
    assert s[i..i + |w|][0] == w[0];
  }

  /** A number written after one space: the space is skipped and %hhu reads the number back. */
  lemma FieldU8(line: string, i: nat, n: nat, ds: string, e: nat)
    requires 1 <= i && n < 256 && At(line, i - 1) == ' '
    requires ds == NatToDec(n) && e == i + |ds|
    requires OccursAt(line, i, ds) && At(line, e) == ' '
    ensures FirstNonSpace(line, i - 1) == i
    ensures ScanU8(line, i) == Some((n, e))
  {
    OccursFirst(line, i, ds);
    assert IsDigit(ds[0]);
    SkipOneSpace(line, i - 1);
    ScanU8At(line, i, n);
  }

  /** The token written last after one space: the space is skipped and %47s reads it back. */
  lemma FieldWord(line: string, i: nat, t: string)
    requires 1 <= i && At(line, i - 1) == ' '
    requires OccursAt(line, i, t) && i + |t| == |line| && t != [] && IsWord(t) && |t| <= 47
    ensures FirstNonSpace(line, i - 1) == i && At(line, i) != '\0'
    ensures ScanWord(line, i, 47) == t
  {
    OccursFirst(line, i, t);
    assert !IsSpace(t[0]) && t[0] != '\0';
    SkipOneSpace(line, i - 1);
    ScanWordAt(line, i, t, 47);
  }

  /** The letter and the first number of a line laid out as "<letter> <n1> ...". */
  lemma ScanHead(line: string, letter: char, n1: nat, d1: string, e1: nat)
    requires n1 < 256 && d1 == NatToDec(n1) && e1 == 2 + |d1| && !IsSpace(letter)
    requires At(line, 0) == letter && At(line, 1) == ' '
    requires OccursAt(line, 2, d1) && At(line, e1) == ' '
    ensures FirstNonSpace(line, 0) == 0 && FirstNonSpace(line, 1) == 2
    ensures ScanU8(line, 2) == Some((n1, e1))
  {
    FirstNonSpaceAt(line, 0);
    FieldU8(line, 2, n1, d1, e1);
  }

  /** The second number and the token of a line laid out as "... <n2> <tok>". */
  lemma ScanTail(line: string, n2: nat, tok: string, d2: string, e1: nat, e2: nat)
    requires n2 < 256 && d2 == NatToDec(n2) && e2 == e1 + 1 + |d2|
    requires tok != [] && |tok| <= 47 && IsWord(tok)
    requires At(line, e1) == ' ' && OccursAt(line, e1 + 1, d2) && At(line, e2) == ' '
    requires OccursAt(line, e2 + 1, tok) && e2 + 1 + |tok| == |line|
    ensures FirstNonSpace(line, e1) == e1 + 1 && ScanU8(line, e1 + 1) == Some((n2, e2))
    ensures FirstNonSpace(line, e2) == e2 + 1 && At(line, e2 + 1) != '\0'
    ensures ScanWord(line, e2 + 1, 47) == tok
  {
    FieldU8(line, e1 + 1, n2, d2, e2);
    FieldWord(line, e2 + 1, tok);
  }

  /** A line laid out as "<letter> <n1> <n2> <tok>" scans to those fields. */
  lemma ScanOfLayout(line: string, f: Fields, d1: string, d2: string, e1: nat, e2: nat)
    requires f.n1 < 256 && f.n2 < 256 && d1 == NatToDec(f.n1) && d2 == NatToDec(f.n2)
    requires !IsSpace(f.letter) && f.letter != '\0'
    requires f.tok != [] && |f.tok| <= 47 && IsWord(f.tok)
    requires e1 == 2 + |d1| && e2 == e1 + 1 + |d2|
    requires At(line, 0) == f.letter && At(line, 1) == ' '
    requires OccursAt(line, 2, d1) && At(line, e1) == ' '
    requires OccursAt(line, e1 + 1, d2) && At(line, e2) == ' '
    requires OccursAt(line, e2 + 1, f.tok) && e2 + 1 + |f.tok| == |line|
    ensures Scan(line) == Some(f)
  {
    ScanHead(line, f.letter, f.n1, d1, e1);
    ScanTail(line, f.n2, f.tok, d2, e1, e2);
    ScanSteps(line, f.letter, f.n1, e1, f.n2, e2, f.tok);
  }

  /** Scan reads back every line FormatLine writes: the field split is inverted exactly. */
  lemma ScanFormatLine(f: Fields)
    requires f.n1 < 256 && f.n2 < 256
    requires !IsSpace(f.letter) && f.letter != '\0'
    requires f.tok != [] && |f.tok| <= 47 && IsWord(f.tok)
    ensures Scan(FormatLine(f)) == Some(f)
  {
    FormatLineLayout(f);
    var d1, d2 := NatToDec(f.n1), NatToDec(f.n2);
    ScanOfLayout(FormatLine(f), f, d1, d2, 2 + |d1|, 3 + |d1| + |d2|);
  }

  // ---------------------------------------------------------------------
  // Line split of circuit_add_from_string
  // ---------------------------------------------------------------------

  /** The end of the line starting at p: the first NUL or '\n' at or after p. */
  function LineEnd(s: string, p: nat): (e: nat)
    ensures p <= e && (e > p ==> e <= |s|)
    ensures forall k :: p <= k < e ==> At(s, k) != '\0' && At(s, k) != '\n'
    ensures At(s, e) == '\0' || At(s, e) == '\n'
    decreases |s| - p
  {
    if At(s, p) == '\0' || At(s, p) == '\n' then p else LineEnd(s, p + 1)
  }

  /** A line copied into the 128-byte buffer keeps at most 127 characters. */
  function Truncate(l: string): (r: string)
    ensures |r| <= 127 && |r| <= |l| && r == l[..|r|]
    ensures |l| <= 127 ==> r == l
  {
    if |l| >= 128 then l[..127] else l
  }

  /** The lines circuit_add_from_string hands on, starting at position p. */
  function LinesFrom(s: string, p: nat): seq<string>
    decreases |s| - p
  {
    if At(s, p) == '\0' then []
    else
      var e := LineEnd(s, p);
      [Truncate(s[p..e])] + (if At(s, e) == '\n' then LinesFrom(s, e + 1) else [])
  }

  predicate IsLine(l: string)
  {
    |l| <= 127 && '\n' !in l && '\0' !in l
  }

  /** Every line followed by a newline. */
  function Join(ls: seq<string>): string
    decreases |ls|
  {
    if ls == [] then [] else ls[0] + "\n" + Join(ls[1..])
  }

  /** A newline-free, NUL-free l occurring at p and followed by '\n' is the line at p. */
  lemma {:induction false} LineEndIn(s: string, p: nat, l: string)
    requires OccursAt(s, p, l) && '\n' !in l && '\0' !in l && At(s, p + |l|) == '\n'
    ensures LineEnd(s, p) == p + |l|
    decreases |l|
  {
    if l != [] {
      assert s[p] == s[p..p + |l|][0] && l[0] in l;
      assert s[p + 1..p + 1 + |l[1..]|] == l[1..];
      LineEndIn(s, p + 1, l[1..]);
    }
  }

  lemma LinesFromStep(s: string, p: nat)
    requires At(s, p) != '\0' && At(s, LineEnd(s, p)) == '\n'
    ensures LinesFrom(s, p) == [Truncate(s[p..LineEnd(s, p)])] + LinesFrom(s, LineEnd(s, p) + 1)
  {
  }

  /** A line l occurring at p and followed by '\n' is the first line read from p. */
  lemma LinesFromFirstIn(s: string, p: nat, l: string, q: nat)
    requires IsLine(l) && OccursAt(s, p, l) && At(s, p + |l|) == '\n' && q == p + |l| + 1
    ensures LinesFrom(s, p) == [l] + LinesFrom(s, q)
  {
    LineEndIn(s, p, l);
    if l != [] {
      assert s[p] == s[p..p + |l|][0] && l[0] in l;
    }
    assert Truncate(s[p..p + |l|]) == l;
    LinesFromStepAt(s, p, p + |l|, l, q);
  }

  /** The first line of pre + l + "\n" + rest, read from |pre|, is l. */
  lemma LinesFromFirst(pre: string, l: string, rest: string)
    requires IsLine(l)
    ensures LinesFrom(pre + l + "\n" + rest, |pre|) == [l] + LinesFrom(pre + l + "\n" + rest, |pre + l + "\n"|)
  {
    var s := pre + l + "\n" + rest;
    assert s[|pre|..|pre| + |l|] == l && s[|pre| + |l|] == '\n';
    LinesFromFirstIn(s, |pre|, l, |pre + l + "\n"|);
  }

  lemma LinesFromStepAt(s: string, p: nat, e: nat, l: string, q: nat)
    requires At(s, p) != '\0' && e == LineEnd(s, p) && At(s, e) == '\n' && Truncate(s[p..e]) == l
    requires q == e + 1
    ensures LinesFrom(s, p) == [l] + LinesFrom(s, q)
  {
    LinesFromStep(s, p);
  }

  lemma JoinCons(pre: string, ls: seq<string>)
    requires ls != []
    ensures pre + Join(ls) == pre + ls[0] + "\n" + Join(ls[1..])
  {
  }

  /** The first line of a join, before the lines after it. */
  lemma JoinFirstLine(pre: string, ls: seq<string>)
    requires ls != [] && IsLine(ls[0])
    requires LinesFrom(pre + ls[0] + "\n" + Join(ls[1..]), |pre + ls[0] + "\n"|) == ls[1..]
    ensures LinesFrom(pre + Join(ls), |pre|) == ls
  {
    JoinCons(pre, ls);
    LinesFromFirst(pre, ls[0], Join(ls[1..]));
    assert ls == [ls[0]] + ls[1..];
  }

  /** Splitting the join of short newline-free lines gives the lines back. */
  lemma {:induction false} LinesOfJoin(pre: string, ls: seq<string>)
    requires forall k :: 0 <= k < |ls| ==> IsLine(ls[k])
    ensures LinesFrom(pre + Join(ls), |pre|) == ls
    decreases |ls|
  {
    if ls == [] {
      assert pre + Join(ls) == pre;
    } else {
      forall k | 0 <= k < |ls[1..]| ensures IsLine(ls[1..][k]) {
        assert ls[1..][k] == ls[k + 1];
      }
      LinesOfJoin(pre + ls[0] + "\n", ls[1..]);
      JoinFirstLine(pre, ls);
    }
  }
}
