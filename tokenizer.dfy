/** The tokenizer (`tokenizeAdvanced`). After removing every ' ' it scans the
    string once, gathering digits, dots and "folded" minus signs into a
    pending number and emitting every other operator or parenthesis as a
    one-character token.

    `Lex` is a reference definition by maximal runs: a character is Glued
    when the scan appends it to the pending number, a number token is a
    maximal run of glued characters, and every other legal character is a
    token of its own. `Tokenize` is the scan with its pending-number buffer,
    proved to agree with `Lex`; the lemmas state what `Lex` promises. */
module Tokenizer {
  import opened Common

  /** `strings.ReplaceAll(expr, " ", "")`: only the space character goes. */
  function StripSpaces(s: string): (r: string)
    ensures |r| <= |s|
    ensures forall k :: 0 <= k < |r| ==> r[k] != ' '
    ensures forall c :: c != ' ' ==> multiset(r)[c] == multiset(s)[c]
  {
    if |s| == 0 then []
    else
      assert s == [s[0]] + s[1..];
      if s[0] == ' ' then StripSpaces(s[1..]) else [s[0]] + StripSpaces(s[1..])
  }

  /** A string without spaces is left as it is. */
  lemma {:induction false} SpacelessUnchanged(s: string)
    requires forall k :: 0 <= k < |s| ==> s[k] != ' '
    ensures StripSpaces(s) == s
  {
    if |s| > 0 {
      SpacelessUnchanged(s[1..]);
      assert s == [s[0]] + s[1..];
    }
  }

  /** One character: a space goes, anything else stays. */
  lemma StripSpacesChar(c: char)
    ensures StripSpaces([c]) == if c == ' ' then [] else [c]
  {
    assert [c][1..] == [];
  }

  /** Removing the spaces works piece by piece and keeps the order of what
      remains: together with `StripSpacesChar` this pins the result down
      to the non-space characters in their original order. */
  lemma {:induction false} StripSpacesAppend(a: string, b: string)
    ensures StripSpaces(a + b) == StripSpaces(a) + StripSpaces(b)
  {
    if |a| > 0 {
      assert (a + b)[0] == a[0];
      assert (a + b)[1..] == a[1..] + b;
      StripSpacesAppend(a[1..], b);
      if a[0] != ' ' {
        assert [a[0]] + (StripSpaces(a[1..]) + StripSpaces(b)) ==
          ([a[0]] + StripSpaces(a[1..])) + StripSpaces(b);
      }
    } else {
      assert a + b == b;
    }
  }

  /** Removing the spaces twice is removing them once. */
  lemma StripSpacesIdempotent(s: string)
    ensures StripSpaces(StripSpaces(s)) == StripSpaces(s)
  {
    SpacelessUnchanged(StripSpaces(s));
  }

  /** The scan appends the character at i to the pending number: it is a
      digit or '.', or a '-' at the start, after '(' or after an operator.
      Put another way, a '-' after a legal character is a sign exactly when
      that character cannot end an operand. */
  function Glued(s: string, i: nat): (b: bool)
    requires i < |s|
    ensures b ==> IsLegal(s[i]) && (IsDigitOrDot(s[i]) || s[i] == '-')
    ensures IsDigitOrDot(s[i]) ==> b
    ensures s[i] == '-' && i == 0 ==> b
    ensures s[i] == '-' && 0 < i && IsLegal(s[i - 1]) ==>
      (b <==> !(IsDigitOrDot(s[i - 1]) || s[i - 1] == ')'))
  {
    IsDigitOrDot(s[i]) || (s[i] == '-' && (i == 0 || s[i - 1] == '(' || IsOperator(s[i - 1])))
  }

  /** The end of the maximal run of glued characters that starts at i. */
  function RunEnd(s: string, i: nat): (j: nat)
    requires i <= |s|
    ensures i <= j <= |s|
    ensures forall k :: i <= k < j ==> Glued(s, k)
    ensures j == |s| || !Glued(s, j)
    decreases |s| - i
  {
    if i < |s| && Glued(s, i) then RunEnd(s, i + 1) else i
  }

  /** A run of glued characters that ends where the next one is not glued
      is the run `RunEnd` finds. */
  lemma RunEndAt(s: string, i: nat, j: nat)
    requires i <= j <= |s|
    requires forall k :: i <= k < j ==> Glued(s, k)
    requires j == |s| || !Glued(s, j)
    ensures RunEnd(s, i) == j
  {
  }

  /** Put the tokens `ts` in front of a successful result; an error stays. */
  function PrependAll(ts: seq<string>, r: Result<seq<string>>): (r': Result<seq<string>>)
    ensures r'.Ok? == r.Ok?
    ensures r.Ok? ==> r'.value == ts + r.value
    ensures r.Err? ==> r' == r
  {
    match r
    case Ok(rest) => Ok(ts + rest)
    case Err(e) => Err(e)
  }

  lemma PrependAssoc(ts: seq<string>, t: string, r: Result<seq<string>>)
    ensures PrependAll(ts, PrependAll([t], r)) == PrependAll(ts + [t], r)
  {
    if r.Ok? {
      assert ts + ([t] + r.value) == (ts + [t]) + r.value;
    }
  }

  /** The tokens of s[i..], in the context of the characters before i. */
  function Lex(s: string, i: nat): (r: Result<seq<string>>)
    requires i <= |s|
    ensures r.Err? ==> r.error.InvalidCharacter? && !IsLegal(r.error.c)
    ensures r.Ok? ==> (|r.value| == 0 <==> i == |s|)
    decreases |s| - i
  {
    if i == |s| then Ok([])
    else if Glued(s, i) then
      var j := RunEnd(s, i);
      PrependAll([s[i..j]], Lex(s, j))
    else if IsLegal(s[i]) then PrependAll([s[i..i + 1]], Lex(s, i + 1))
    else Err(InvalidCharacter(s[i]))
  }

  /** The first token of s[i..] is s[i..j]: a maximal glued run, or a
      single legal character that is not glued. */
  lemma LexToken(s: string, i: nat, j: nat)
    requires i < j <= |s|
    requires if Glued(s, i) then (forall k :: i < k < j ==> Glued(s, k)) && (j == |s| || !Glued(s, j))
      else IsLegal(s[i]) && j == i + 1
    ensures Lex(s, i) == PrependAll([s[i..j]], Lex(s, j))
  {
    if Glued(s, i) {
      RunEndAt(s, i, j);
    }
  }

  /** A non-empty string all of whose characters are glued scans as one
      token: the whole string. */
  lemma LexWholeRun(s: string)
    requires 0 < |s| && forall k :: 0 <= k < |s| ==> Glued(s, k)
    ensures Lex(s, 0) == Ok([s])
  {
    LexToken(s, 0, |s|);
    assert s[0..|s|] == s;
    assert Lex(s, |s|) == Ok([]);
    assert [s] + [] == [s];
  }

  /** Each character of s[i..j] as a token of its own. */
  function Characters(s: string, i: nat, j: nat): (r: seq<string>)
    requires i <= j <= |s|
    ensures |r| == j - i
    ensures forall k :: 0 <= k < j - i ==> r[k] == [s[i + k]]
  {
    seq(j - i, k requires 0 <= k < j - i => [s[i + k]])
  }

  /** The first character of a stretch is its first token. */
  lemma CharactersFirst(s: string, i: nat, j: nat, rest: seq<string>)
    requires i < j <= |s|
    ensures Characters(s, i, j) + rest == [[s[i]]] + (Characters(s, i + 1, j) + rest)
  {
    var c, c' := Characters(s, i, j), Characters(s, i + 1, j);
    forall k | 0 < k < |c| ensures c[k] == c'[k - 1] { }
    assert c == [[s[i]]] + c';
  }

  /** A legal character that does not start a run of two glued characters
      is a token of its own. */
  lemma LexCharacter(s: string, i: nat, rest: seq<string>)
    requires i < |s| && IsLegal(s[i])
    requires i + 1 < |s| ==> !(Glued(s, i) && Glued(s, i + 1))
    requires Lex(s, i + 1) == Ok(rest)
    ensures Lex(s, i) == Ok([[s[i]]] + rest)
  {
    assert s[i..i + 1] == [s[i]] by {
      assert |s[i..i + 1]| == 1 && s[i..i + 1][0] == s[i];
    }
    LexToken(s, i, i + 1);
  }

  /** s[i..j] holds legal characters only, and no two neighbours in it
      (nor its last character and s[j]) are both glued. */
  predicate Unglued(s: string, i: nat, j: nat)
    requires i <= j <= |s|
  {
    (forall k :: i <= k < j ==> IsLegal(s[k])) &&
    (forall k :: i <= k < j && k + 1 < |s| ==> !(Glued(s, k) && Glued(s, k + 1)))
  }

  /** The first character of an unglued stretch and the stretch after it. */
  lemma UngluedFirst(s: string, i: nat, j: nat)
    requires i < j <= |s| && Unglued(s, i, j)
    ensures Unglued(s, i + 1, j) && IsLegal(s[i])
    ensures i + 1 < |s| ==> !(Glued(s, i) && Glued(s, i + 1))
  {
  }

  /** An unglued stretch s[i..j] scans one token per character. */
  lemma {:induction false} LexCharacters(s: string, i: nat, j: nat, rest: seq<string>)
    requires i <= j <= |s| && Unglued(s, i, j)
    requires Lex(s, j) == Ok(rest)
    ensures Lex(s, i) == Ok(Characters(s, i, j) + rest)
    decreases j - i
  {
    if i < j {
      UngluedFirst(s, i, j);
      LexCharacters(s, i + 1, j, rest);
      LexCharacter(s, i, Characters(s, i + 1, j) + rest);
      CharactersFirst(s, i, j, rest);
    } else {
      assert Characters(s, i, j) + rest == rest;
    }
  }

  /** An illegal character stops the scan with its error. */
  lemma LexIllegal(s: string, i: nat)
    requires i < |s| && !IsLegal(s[i])
    ensures Lex(s, i) == Err(InvalidCharacter(s[i]))
  {
  }

  /** Flushing a pending number: the run from `start` to `i` is one token. */
  lemma FlushRun(s: string, tokens: seq<string>, start: nat, i: nat)
    requires start < i <= |s|
    requires forall k :: start <= k < i ==> Glued(s, k)
    requires i == |s| || !Glued(s, i)
    requires PrependAll(tokens, Lex(s, start)) == Lex(s, 0)
    ensures PrependAll(tokens + [s[start..i]], Lex(s, i)) == Lex(s, 0)
  {
    assert Glued(s, start);
    RunEndAt(s, start, i);
    PrependAssoc(tokens, s[start..i], Lex(s, i));
  }

  /** Appending a glued character to the pending number. */
  lemma ExtendRun(s: string, start: nat, i: nat)
    requires start <= i < |s| && Glued(s, i)
    requires forall k :: start <= k < i ==> Glued(s, k)
    ensures s[start..i + 1] == s[start..i] + [s[i]]
    ensures forall k :: start <= k < i + 1 ==> Glued(s, k)
  {
  }

  /** Emitting an operator or parenthesis as a token of its own. */
  lemma EmitSingle(s: string, tokens: seq<string>, i: nat)
    requires i < |s| && !Glued(s, i) && IsLegal(s[i])
    requires PrependAll(tokens, Lex(s, i)) == Lex(s, 0)
    ensures PrependAll(tokens + [[s[i]]], Lex(s, i + 1)) == Lex(s, 0)
  {
    assert s[i..i + 1] == [s[i]];
    PrependAssoc(tokens, [s[i]], Lex(s, i + 1));
  }

  /** `tokenizeAdvanced`: strip the spaces, then scan character by character
      with a pending-number buffer. */
  method Tokenize(expr: string) returns (r: Result<seq<string>>)
    ensures r == Lex(StripSpaces(expr), 0)
  {
    var s := StripSpaces(expr);
    var tokens: seq<string> := [];
    var num: string := "";
    var i := 0;
    ghost var start := 0;
    assert PrependAll(tokens, Lex(s, 0)) == Lex(s, 0) by {
      if Lex(s, 0).Ok? {
        assert [] + Lex(s, 0).value == Lex(s, 0).value;
      }
    }
    while i < |s|
      invariant start <= i <= |s|
      invariant num == s[start..i]
      invariant forall k :: start <= k < i ==> Glued(s, k)
      invariant PrependAll(tokens, Lex(s, start)) == Lex(s, 0)
    {
      var c := s[i];
      if IsDigit(c) || c == '.' || (c == '-' && (i == 0 || s[i - 1] == '(' || IsOperator(s[i - 1]))) {
        ExtendRun(s, start, i);
        num := num + [c];
        i := i + 1;
        continue;
      }
      if num != "" {
        FlushRun(s, tokens, start, i);
        tokens := tokens + [num];
        num := "";
        start := i;
      }
      if IsOperator(c) || c == '(' || c == ')' {
        EmitSingle(s, tokens, i);
        tokens := tokens + [[c]];
        i := i + 1;
        start := i;
        continue;
      }
      LexIllegal(s, i);
      return Err(InvalidCharacter(c));
    }
    if num != "" {
      FlushRun(s, tokens, start, i);
      tokens := tokens + [num];
    }
    assert tokens + [] == tokens;
    return Ok(tokens);
  }

  /** The concatenation of a sequence of tokens. */
  function Concat(ts: seq<string>): (s: string)
    ensures |ts| == 0 ==> s == ""
  {
    if |ts| == 0 then "" else ts[0] + Concat(ts[1..])
  }

  /** The first illegal character of s at or after i, if there is one, is
      what `Lex` reports; with none, it succeeds. */
  lemma {:induction false} LexFailsExactlyOnIllegal(s: string, i: nat)
    requires i <= |s|
    ensures Lex(s, i).Err? <==> exists k :: i <= k < |s| && !IsLegal(s[k])
    ensures Lex(s, i).Err? ==>
      exists k :: i <= k < |s| && !IsLegal(s[k]) && Lex(s, i).error == InvalidCharacter(s[k]) &&
        forall m :: i <= m < k ==> IsLegal(s[m])
    decreases |s| - i
  {
    if i < |s| {
      var j := if Glued(s, i) then RunEnd(s, i) else i + 1;
      if Glued(s, i) || IsLegal(s[i]) {
        assert forall m :: i <= m < j ==> IsLegal(s[m]) by {
          forall m | i <= m < j ensures IsLegal(s[m]) {
            if Glued(s, i) {
              assert Glued(s, m);
            }
          }
        }
        LexFailsExactlyOnIllegal(s, j);
        if Lex(s, i).Err? {
          var k :| j <= k < |s| && !IsLegal(s[k]) && Lex(s, j).error == InvalidCharacter(s[k]) &&
            forall m :: j <= m < k ==> IsLegal(s[m]);
          assert forall m :: i <= m < k ==> IsLegal(s[m]);
        }
      } else {
        assert !IsLegal(s[i]) && Lex(s, i).error == InvalidCharacter(s[i]);
      }
    }
  }

  /** A token of one character: an operator or a parenthesis. */
  predicate IsSymbolToken(t: string) {
    |t| == 1 && (IsOperator(t[0]) || t[0] == '(' || t[0] == ')')
  }

  /** A pending number as the scan builds it: a non-empty run of '-'
      followed by digits and dots. */
  predicate IsNumeralToken(t: string) {
    |t| >= 1 &&
    (forall k :: 0 <= k < |t| ==> t[k] == '-' || IsDigitOrDot(t[k])) &&
    (forall j, k :: 0 <= j < k < |t| && t[k] == '-' ==> t[j] == '-')
  }

  /** Inside a glued run a '-' can only follow another '-', so every
      character from the start of the run up to a '-' is a '-'. */
  lemma {:induction false} MinusOnlyAfterMinus(s: string, i: nat, k: nat)
    requires i <= k < |s|
    requires forall m :: i <= m <= k ==> Glued(s, m)
    requires s[k] == '-'
    ensures forall m :: i <= m <= k ==> s[m] == '-'
    decreases k - i
  {
    if k > i {
      assert Glued(s, k) && Glued(s, k - 1);
      assert s[k - 1] == '-';
      MinusOnlyAfterMinus(s, i, k - 1);
    }
  }

  /** A glued run reads as a numeral token. */
  lemma GluedRunIsNumeral(s: string, i: nat, j: nat)
    requires i < j <= |s|
    requires forall k :: i <= k < j ==> Glued(s, k)
    ensures IsNumeralToken(s[i..j])
  {
    var t := s[i..j];
    forall k | 0 <= k < |t| ensures t[k] == '-' || IsDigitOrDot(t[k]) {
      assert Glued(s, i + k);
    }
    forall a, b | 0 <= a < b < |t| && t[b] == '-' ensures t[a] == '-' {
      MinusOnlyAfterMinus(s, i, i + b);
    }
  }

  /** On success the tokens are non-empty, each is a symbol or a numeral,
      and together they spell out the scanned text. */
  lemma {:induction false} LexTokensSpellInput(s: string, i: nat)
    requires i <= |s|
    requires Lex(s, i).Ok?
    ensures Concat(Lex(s, i).value) == s[i..]
    ensures forall t :: t in Lex(s, i).value ==> IsSymbolToken(t) || IsNumeralToken(t)
    decreases |s| - i
  {
    if i < |s| {
      var j := if Glued(s, i) then RunEnd(s, i) else i + 1;
      LexTokensSpellInput(s, j);
      var ts := Lex(s, i).value;
      assert ts == [s[i..j]] + Lex(s, j).value;
      assert ts[1..] == Lex(s, j).value;
      assert s[i..] == s[i..j] + s[j..];
      if Glued(s, i) {
        GluedRunIsNumeral(s, i, j);
      }
    }
  }

  /** A symbol or numeral token holds a parenthesis exactly when it is
      that parenthesis. */
  lemma ParenthesesOfToken(t: string)
    requires IsSymbolToken(t) || IsNumeralToken(t)
    ensures multiset(t)['('] == if t == "(" then 1 else 0
    ensures multiset(t)[')'] == if t == ")" then 1 else 0
  {
    if IsSymbolToken(t) {
      assert t == [t[0]];
    } else {
      assert '(' !in t && ')' !in t;
    }
  }

  /** Tokens that are symbols or numerals hold the parentheses of the text
      they spell, one token per parenthesis. */
  lemma {:induction false} ParenthesesSurviveLexing(ts: seq<string>)
    requires forall t :: t in ts ==> IsSymbolToken(t) || IsNumeralToken(t)
    ensures multiset(ts)["("] == multiset(Concat(ts))['(']
    ensures multiset(ts)[")"] == multiset(Concat(ts))[')']
  {
    if |ts| > 0 {
      var t := ts[0];
      var rest := ts[1..];
      assert ts == [t] + rest;
      ParenthesesSurviveLexing(rest);
      ParenthesesOfToken(t);
      assert multiset(ts) == multiset([t]) + multiset(rest);
      assert multiset(Concat(ts)) == multiset(t) + multiset(Concat(rest));
    }
  }
}
