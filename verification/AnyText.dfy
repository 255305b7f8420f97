/** What the AS_PATH parser reads from any text, well formed or not: words are read one
    by one, and in a word only its numbers count. */
module AnyText {
  import opened AsPaths
  import opened AsPathParser
  import opened Text

  /** The ASCII characters at which the source's split breaks words. */
  predicate Whitespace(c: char) {
    c in {'\U{9}', '\U{a}', '\U{b}', '\U{c}', '\U{d}', '\U{1c}', '\U{1d}', '\U{1e}', '\U{1f}', ' '}
  }

  lemma SpaceIsWhitespace(c: char)
    ensures IsSpace(c) <==> Whitespace(c)
  {
  }

  lemma {:induction false} WordIsMaximal(s: string)
    ensures var n := WordLength(s);
      && (n == |s| || IsSpace(s[n]))
      && forall i | 0 <= i < n :: !IsSpace(s[i])
  {
    if s != "" && !IsSpace(s[0]) {
      WordIsMaximal(s[1..]);
    }
  }

  /** Whitespace separates words, wherever it stands. */
  lemma {:induction false} WordsOfParts(left: string, right: string)
    requires right != "" && IsSpace(right[0])
    ensures Words(left + right) == Words(left) + Words(right)
    decreases |left|
  {
    if left == "" {
      assert left + right == right;
    } else if IsSpace(left[0]) {
      assert (left + right)[1..] == left[1..] + right;
      WordsOfParts(left[1..], right);
    } else {
      var n := WordLength(left);
      var word, rest := left[..n], left[n..];
      WordIsMaximal(left);
      assert left == word + rest;
      FirstWordOfParts(word, rest, right);
      WordsOfParts(rest, right);
      Associates([word], Words(rest), Words(right));
    }
  }

  lemma FirstWordOfParts(word: string, rest: string, right: string)
    requires IsWord(word) && (rest == "" || IsSpace(rest[0])) && right != "" && IsSpace(right[0])
    ensures Words(word + rest) == [word] + Words(rest)
    ensures Words(word + rest + right) == [word] + Words(rest + right)
  {
    Associates(word, rest, right);
    WordsAfterWord(word, rest);
    WordsAfterWord(word, rest + right);
  }

  lemma {:induction false} TokensOfParts(left: seq<string>, right: seq<string>)
    ensures TokensAsns(left + right) == TokensAsns(left) + TokensAsns(right)
  {
    if right == [] {
      assert left + right == left;
    } else {
      var front, last := right[..|right| - 1], right[|right| - 1];
      assert right == front + [last];
      TokensOfParts(left, front);
      TokensSnoc(front, last);
      TokensSnoc(left + front, last);
      Associates(left, front, [last]);
      Associates(TokensAsns(left), TokensAsns(front), TokenAsns(last));
    }
  }

  lemma Associates<T>(a: seq<T>, b: seq<T>, c: seq<T>)
    ensures (a + b) + c == a + (b + c)
  {
  }

  lemma TokensSnoc(tokens: seq<string>, token: string)
    ensures TokensAsns(tokens + [token]) == TokensAsns(tokens) + TokenAsns(token)
  {
    assert (tokens + [token])[..|tokens|] == tokens;
  }

  /** Every text is read word by word: at whitespace it falls into two texts. */
  lemma TextReadsWords(left: string, c: char, right: string)
    requires Whitespace(c)
    ensures TextAsns(left + [c] + right) == TextAsns(left) + TextAsns(right)
    ensures Parsed(left + [c] + right) == Glue(Parsed(left), Parsed(right))
  {
    SpaceIsWhitespace(c);
    WordsOfParts(left, [c] + right);
    assert left + [c] + right == left + ([c] + right);
    WordsAfterBlank([c], right);
    TokensOfParts(Words(left), Words(right));
    RunCompressConcat(TextAsns(left), TextAsns(right));
  }

  /** The numbers among the pieces of a word; anything else is skipped. */
  function Numbers(pieces: seq<string>): AsPath {
    if pieces == [] then []
    else (if IsDecimal(pieces[0]) then [ParseDecimal(pieces[0])] else []) + Numbers(pieces[1..])
  }

  ghost predicate Plain(piece: string) {
    forall i | 0 <= i < |piece| :: !Whitespace(piece[i]) && piece[i] != ','
  }

  ghost predicate AllBraces(s: string) {
    forall i | 0 <= i < |s| :: IsCut(s[i], Braces)
  }

  lemma {:induction false} TrimLeftOf(braces: string, s: string)
    requires AllBraces(braces) && (s == "" || !IsCut(s[0], Braces))
    ensures TrimLeft(braces + s, Braces) == s
  {
    if braces == "" {
      assert braces + s == s;
    } else {
      assert (braces + s)[1..] == braces[1..] + s;
      TrimLeftOf(braces[1..], s);
    }
  }

  lemma {:induction false} TrimRightOf(s: string, braces: string)
    requires AllBraces(braces) && (s == "" || !IsCut(s[|s| - 1], Braces))
    ensures TrimRight(s + braces, Braces) == s
  {
    if braces == "" {
      assert s + braces == s;
    } else {
      assert (s + braces)[..|s + braces| - 1] == s + braces[..|braces| - 1];
      TrimRightOf(s, braces[..|braces| - 1]);
    }
  }

  lemma TrimBraces(left: string, body: string, right: string)
    requires AllBraces(left) && AllBraces(right)
    requires BracesOnlyOutside(body)
    ensures Trim(left + body + right, Braces) == body
  {
    if body == "" {
      assert left + body + right == left + right + "";
      TrimLeftOf(left + right, "");
    } else {
      assert left + body + right == left + (body + right);
      TrimLeftOf(left, body + right);
      TrimRightOf(body, right);
    }
  }

  lemma {:induction false} PieceAsnsAreNumbers(pieces: seq<string>)
    requires forall i | 0 <= i < |pieces| :: Plain(pieces[i])
    ensures PieceAsns(pieces) == Numbers(pieces)
  {
    if pieces != [] {
      var front, last := pieces[..|pieces| - 1], pieces[|pieces| - 1];
      assert pieces == front + [last];
      PieceAsnsAreNumbers(front);
      TrimKeeps(last, Blanks);
      NumbersOfParts(front, last);
    }
  }

  lemma {:induction false} NumbersOfParts(front: seq<string>, last: string)
    ensures Numbers(front + [last]) == Numbers(front) + if IsDecimal(last) then [ParseDecimal(last)] else []
  {
    if front != [] {
      assert (front + [last])[1..] == front[1..] + [last];
      NumbersOfParts(front[1..], last);
    }
  }

  lemma {:induction false} JoinedIsWord(pieces: seq<string>)
    requires forall i | 0 <= i < |pieces| :: Plain(pieces[i])
    ensures forall i | 0 <= i < |Join(pieces, ',')| :: !IsSpace(Join(pieces, ',')[i])
  {
    if |pieces| > 1 {
      JoinedIsWord(pieces[1..]);
    }
  }

  ghost predicate BracesOnlyOutside(body: string) {
    body == "" || (!IsCut(body[0], Braces) && !IsCut(body[|body| - 1], Braces))
  }

  /** A word, with whatever braces around it, contributes the numbers among its
      comma-separated pieces. */
  lemma {:induction false} WordReadsNumbers(left: string, pieces: seq<string>, right: string)
    requires AllBraces(left) && AllBraces(right) && forall i | 0 <= i < |pieces| :: Plain(pieces[i])
    requires BracesOnlyOutside(Join(pieces, ','))
    ensures TextAsns(left + Join(pieces, ',') + right) == Numbers(pieces)
  {
    var word := left + Join(pieces, ',') + right;
    JoinedIsWord(pieces);
    TokenReadsNumbers(left, pieces, right);
    if word == "" {
      assert Split("", ',') == [""];
      PieceAsnsAreNumbers([""]);
    } else {
      OneToken(word);
    }
  }

  lemma OneToken(word: string)
    requires IsWord(word)
    ensures TextAsns(word) == TokenAsns(word)
  {
    assert word + "" == word;
    WordsAfterWord(word, "");
    TokensSnoc([], word);
    assert [] + [word] == [word];
  }

  lemma {:induction false} TokenReadsNumbers(left: string, pieces: seq<string>, right: string)
    requires AllBraces(left) && AllBraces(right) && forall i | 0 <= i < |pieces| :: Plain(pieces[i])
    requires BracesOnlyOutside(Join(pieces, ','))
    ensures TokenAsns(left + Join(pieces, ',') + right) == Numbers(pieces)
  {
    var body := Join(pieces, ',');
    TrimBraces(left, body, right);
    if body == "" {
      NoNumbers(pieces);
      assert Split(body, ',') == [""];
      PieceAsnsAreNumbers([""]);
    } else {
      SplitJoin(pieces, ',');
      PieceAsnsAreNumbers(pieces);
    }
  }

  lemma NoNumbers(pieces: seq<string>)
    requires Join(pieces, ',') == ""
    ensures Numbers(pieces) == Numbers([""]) == []
  {
    assert [""][1..] == [];
    if pieces != [] {
      assert |pieces| == 1;
      assert pieces[1..] == [];
    }
  }

  lemma {:induction false} LeadingZero(s: string)
    requires forall i | 0 <= i < |s| :: IsDigit(s[i])
    ensures ParseDecimal("0" + s) == ParseDecimal(s)
  {
    var t := "0" + s;
    if s == "" {
      assert t[..0] == "";
    } else {
      assert t[..|t| - 1] == "0" + s[..|s| - 1];
      LeadingZero(s[..|s| - 1]);
    }
  }

  lemma {:induction false} LeadingZeros(zeros: string, n: nat)
    requires forall i | 0 <= i < |zeros| :: zeros[i] == '0'
    ensures IsDecimal(zeros + Decimal(n)) && ParseDecimal(zeros + Decimal(n)) == n
  {
    DecimalRoundTrip(n);
    if zeros == "" {
      assert zeros + Decimal(n) == Decimal(n);
    } else {
      LeadingZeros(zeros[1..], n);
      LeadingZero(zeros[1..] + Decimal(n));
      assert zeros + Decimal(n) == "0" + (zeros[1..] + Decimal(n));
    }
  }

  /** A printed number contributes itself, with any leading zeros; a word without commas
      that is no number contributes nothing. */
  lemma SingleWord(zeros: string, n: nat, word: string)
    requires forall i | 0 <= i < |zeros| :: zeros[i] == '0'
    requires Plain(word) && BracesOnlyOutside(word) && !IsDecimal(word)
    ensures TextAsns(zeros + Decimal(n)) == [n]
    ensures TextAsns(word) == []
  {
    NumberWord(zeros, n);
    ReadsSingle(word);
  }

  lemma NumberWord(zeros: string, n: nat)
    requires forall i | 0 <= i < |zeros| :: zeros[i] == '0'
    ensures TextAsns(zeros + Decimal(n)) == [n]
  {
    LeadingZeros(zeros, n);
    DecimalIsPlain(zeros + Decimal(n));
    ReadsSingle(zeros + Decimal(n));
  }

  lemma DecimalIsPlain(s: string)
    requires IsDecimal(s)
    ensures Plain(s) && BracesOnlyOutside(s)
  {
  }

  lemma ReadsSingle(word: string)
    requires Plain(word) && BracesOnlyOutside(word)
    ensures TextAsns(word) == if IsDecimal(word) then [ParseDecimal(word)] else []
  {
    assert Join([word], ',') == word;
    assert "" + word + "" == word;
    WordReadsNumbers("", [word], "");
  }
}
