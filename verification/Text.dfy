/** The string operations both languages take from their standard libraries:
    splitting, joining, trimming and decimal conversion, on ASCII text. */
module Text {

  /** ASCII whitespace: space, tab to carriage return, and the four separators. */
  predicate IsSpace(c: char) {
    c == ' ' || '\t' <= c <= '\r' || '\U{1c}' <= c <= '\U{1f}'
  }

  /** What a trim removes. */
  datatype Cut = Blanks | Braces

  predicate IsCut(c: char, cut: Cut) {
    match cut
    case Blanks => IsSpace(c)
    case Braces => c == '{' || c == '}'
  }

  predicate IsDigit(c: char) { '0' <= c <= '9' }

  /** True for a non-empty run of ASCII digits. */
  predicate IsDecimal(s: string) {
    s != "" && forall i | 0 <= i < |s| :: IsDigit(s[i])
  }

  function Digit(d: nat): (c: char)
    requires d < 10
  {
    '0' + d as char
  }

  function Decimal(n: nat): string {
    if n < 10 then [Digit(n)] else Decimal(n / 10) + [Digit(n % 10)]
  }

  function ParseDecimal(s: string): nat
    requires forall i | 0 <= i < |s| :: IsDigit(s[i])
  {
    if s == "" then 0
    else
      assert IsDigit(s[|s| - 1]);
      10 * ParseDecimal(s[..|s| - 1]) + (s[|s| - 1] as int - '0' as int)
  }

  lemma {:induction false} DecimalRoundTrip(n: nat)
    ensures IsDecimal(Decimal(n)) && ParseDecimal(Decimal(n)) == n
  {
    if n < 10 {
      assert Decimal(n)[..0] == "";
    } else {
      DecimalRoundTrip(n / 10);
      assert Decimal(n)[..|Decimal(n)| - 1] == Decimal(n / 10);
    }
  }

  /** Signed decimal printing. */
  function PrintInt(n: int): string {
    if n < 0 then "-" + Decimal(-n) else Decimal(n)
  }

  lemma PrintIntInjective(a: int, b: int)
    requires PrintInt(a) == PrintInt(b)
    ensures a == b
  {
    DecimalRoundTrip(if a < 0 then -a else a);
    DecimalRoundTrip(if b < 0 then -b else b);
    var text := PrintInt(a);
    if a < 0 {
      assert text[0] == '-' && !IsDigit('-');
      assert text[1..] == Decimal(-a);
      assert b < 0;
      assert text[1..] == Decimal(-b);
    } else {
      assert IsDigit(text[0]);
      assert b >= 0;
    }
  }

  lemma PrintIntChars(n: int, c: char)
    requires c in PrintInt(n)
    ensures c == '-' || IsDigit(c)
  {
    DecimalRoundTrip(if n < 0 then -n else n);
  }

  lemma PrintIntNonEmpty(n: int)
    ensures PrintInt(n) != ""
  {
    DecimalRoundTrip(if n < 0 then -n else n);
  }

  function Join(parts: seq<string>, separator: char): string {
    if parts == [] then ""
    else if |parts| == 1 then parts[0]
    else parts[0] + [separator] + Join(parts[1..], separator)
  }

  /** Splits at every separator; empty pieces are kept. */
  function Split(s: string, separator: char): (parts: seq<string>)
    ensures parts != []
  {
    if s == "" then [""]
    else
      var rest := Split(s[1..], separator);
      if s[0] == separator then [""] + rest else [[s[0]] + rest[0]] + rest[1..]
  }

  lemma {:induction false} SplitAfterWord(word: string, s: string, separator: char)
    requires separator !in word
    ensures Split(word + s, separator) == [word + Split(s, separator)[0]] + Split(s, separator)[1..]
  {
    if word == "" {
      assert word + s == s;
      assert word + Split(s, separator)[0] == Split(s, separator)[0];
    } else {
      assert (word + s)[1..] == word[1..] + s;
      SplitAfterWord(word[1..], s, separator);
      assert word[0] in word && (word + s)[0] == word[0];
      var rest := Split(s, separator);
      assert [word[0]] + (word[1..] + rest[0]) == word + rest[0];
    }
  }

  /** Splitting inverts joining when no part holds the separator. */
  lemma {:induction false} SplitJoin(parts: seq<string>, separator: char)
    requires parts != []
    requires forall i | 0 <= i < |parts| :: separator !in parts[i]
    ensures Split(Join(parts, separator), separator) == parts
  {
    if |parts| == 1 {
      SplitAfterWord(parts[0], "", separator);
      assert parts[0] + "" == parts[0];
    } else {
      var tail := [separator] + Join(parts[1..], separator);
      assert Join(parts, separator) == parts[0] + tail;
      SplitJoin(parts[1..], separator);
      assert tail[1..] == Join(parts[1..], separator);
      assert Split(tail, separator) == [""] + parts[1..];
      SplitAfterWord(parts[0], tail, separator);
      assert parts[0] + "" == parts[0];
    }
  }

  function TrimLeft(s: string, cut: Cut): string {
    if s != "" && IsCut(s[0], cut) then TrimLeft(s[1..], cut) else s
  }

  function TrimRight(s: string, cut: Cut): string {
    if s != "" && IsCut(s[|s| - 1], cut) then TrimRight(s[..|s| - 1], cut) else s
  }

  function Trim(s: string, cut: Cut): string {
    TrimRight(TrimLeft(s, cut), cut)
  }

  function WordLength(s: string): (n: nat)
    ensures n <= |s|
    ensures s != "" && !IsSpace(s[0]) ==> n > 0
  {
    if s == "" || IsSpace(s[0]) then 0 else 1 + WordLength(s[1..])
  }

  /** The maximal whitespace-free words of a text. */
  function Words(s: string): seq<string>
    decreases |s|
  {
    if s == "" then []
    else if IsSpace(s[0]) then Words(s[1..])
    else [s[..WordLength(s)]] + Words(s[WordLength(s)..])
  }

  ghost predicate IsBlank(s: string) {
    forall i | 0 <= i < |s| :: IsSpace(s[i])
  }

  ghost predicate IsWord(s: string) {
    s != "" && forall i | 0 <= i < |s| :: !IsSpace(s[i])
  }

  lemma {:induction false} WordsAfterBlank(blank: string, s: string)
    requires IsBlank(blank)
    ensures Words(blank + s) == Words(s)
  {
    if blank == "" {
      assert blank + s == s;
    } else {
      assert (blank + s)[1..] == blank[1..] + s;
      WordsAfterBlank(blank[1..], s);
    }
  }

  lemma {:induction false} WordLengthIs(word: string, s: string)
    requires forall i | 0 <= i < |word| :: !IsSpace(word[i])
    requires s == "" || IsSpace(s[0])
    ensures WordLength(word + s) == |word|
  {
    if word == "" {
      assert word + s == s;
    } else {
      assert (word + s)[1..] == word[1..] + s;
      WordLengthIs(word[1..], s);
    }
  }

  lemma WordsAfterWord(word: string, s: string)
    requires IsWord(word)
    requires s == "" || IsSpace(s[0])
    ensures Words(word + s) == [word] + Words(s)
  {
    WordLengthIs(word, s);
    assert (word + s)[..|word|] == word && (word + s)[|word|..] == s;
  }
}
