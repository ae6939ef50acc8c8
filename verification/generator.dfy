/**
 `generate_password`: 8 to 10 letters, 2 to 4 symbols and 2 to 4 digits drawn
 from fixed pools, concatenated in that order and shuffled.

 The randomness is supplied by the caller: the pool index of every drawn
 character (`random.choice`), and the draws of `random.shuffle`, which walks
 `i` from the last position down to 1 and swaps position `i` with a position
 `j <= i`.
 */
module Generator {

  const LowerCase: string := "abcdefghijklmnopqrstuvwxyz"
  const UpperCase: string := "ABCDEFGHIJKLMNOPQRSTUVWXYZ"
  /** The 52 ASCII letters, lower case first. */
  const Letters: string := LowerCase + UpperCase
  const Digits: string := "0123456789"
  const Symbols: string := "!#$%&()*+"

  predicate IsLetter(c: char) { 'a' <= c <= 'z' || 'A' <= c <= 'Z' }
  predicate IsDigit(c: char) { '0' <= c <= '9' }
  predicate IsSymbol(c: char) {
    c == '!' || c == '#' || c == '$' || c == '%' || c == '&' || c == '(' || c == ')' || c == '*' || c == '+'
  }

  datatype CharClass = Letter | Symbol | Digit

  predicate InClass(c: char, cls: CharClass) {
    match cls
    case Letter => IsLetter(c)
    case Symbol => IsSymbol(c)
    case Digit => IsDigit(c)
  }

  /** Each pool holds only characters of its class. */
  lemma LetterAt(k: int)
    requires 0 <= k < |Letters|
    ensures IsLetter(Letters[k])
  {
    if k < |LowerCase| {
      LowerCaseAt(k);
    } else {
      UpperCaseAt(k - |LowerCase|);
    }
  }

  lemma LowerCaseAt(k: int)
    requires 0 <= k < |LowerCase|
    ensures 'a' <= LowerCase[k] <= 'z'
  {
  }

  lemma UpperCaseAt(k: int)
    requires 0 <= k < |UpperCase|
    ensures 'A' <= UpperCase[k] <= 'Z'
  {
  }

  lemma DigitAt(k: int)
    requires 0 <= k < |Digits|
    ensures IsDigit(Digits[k])
  {
  }

  lemma SymbolAt(k: int)
    requires 0 <= k < |Symbols|
    ensures IsSymbol(Symbols[k])
  {
  }

  /** The characters of `s` that belong to the class `cls`, in their order in `s`. */
  function Select(s: string, cls: CharClass): string
  {
    if |s| == 0 then []
    else (if InClass(s[0], cls) then [s[0]] else []) + Select(s[1..], cls)
  }

  /** How many characters of `s` belong to the class `cls`. */
  function Count(s: string, cls: CharClass): nat {
    |Select(s, cls)|
  }

  lemma {:induction false} CountAppend(a: string, b: string, cls: CharClass)
    ensures Count(a + b, cls) == Count(a, cls) + Count(b, cls)
    decreases |a|
  {
    if |a| > 0 {
      assert (a + b)[0] == a[0];
      assert (a + b)[1..] == a[1..] + b;
      CountAppend(a[1..], b, cls);
    } else {
      assert a + b == b;
    }
  }

  lemma {:induction false} CountAll(s: string, cls: CharClass)
    requires forall k :: 0 <= k < |s| ==> InClass(s[k], cls)
    ensures Count(s, cls) == |s|
    decreases |s|
  {
    if |s| > 0 {
      CountAll(s[1..], cls);
    }
  }

  lemma {:induction false} CountNone(s: string, cls: CharClass)
    requires forall k :: 0 <= k < |s| ==> !InClass(s[k], cls)
    ensures Count(s, cls) == 0
    decreases |s|
  {
    if |s| > 0 {
      CountNone(s[1..], cls);
    }
  }

  /** Taking out the character at `k` takes out its share of the count. */
  lemma {:induction false} CountRemove(t: string, k: int, cls: CharClass)
    requires 0 <= k < |t|
    ensures Count(t, cls) == Count(t[..k] + t[k + 1..], cls) + (if InClass(t[k], cls) then 1 else 0)
    decreases k
  {
    var u := t[..k] + t[k + 1..];
    if k == 0 {
      assert u == t[1..];
    } else {
      var t' := t[1..];
      CountRemove(t', k - 1, cls);
      assert u[0] == t[0];
      assert u[1..] == t'[..k - 1] + t'[k..];
    }
  }

  lemma MultisetRemove(t: string, k: int)
    requires 0 <= k < |t|
    ensures multiset(t[..k] + t[k + 1..]) == multiset(t) - multiset{t[k]}
  {
    assert t == t[..k] + [t[k]] + t[k + 1..];
  }

  /** Matching the head of `s` with a position of its rearrangement `t` leaves
      rearrangements of each other. */
  lemma MatchHead(s: string, t: string, k: int)
    requires multiset(s) == multiset(t) && |s| > 0
    requires 0 <= k < |t| && t[k] == s[0]
    ensures multiset(s[1..]) == multiset(t[..k] + t[k + 1..])
  {
    assert s == [s[0]] + s[1..];
    assert multiset(s[1..]) == multiset(s) - multiset{s[0]};
    MultisetRemove(t, k);
  }

  /** Rearranging a string keeps the number of characters of every class. */
  lemma {:induction false} CountPermutation(s: string, t: string, cls: CharClass)
    requires multiset(s) == multiset(t)
    ensures Count(s, cls) == Count(t, cls)
    decreases |s|
  {
    if |s| == 0 {
      assert |t| == |multiset(t)| == 0;
    } else {
      assert s[0] in multiset(t);
      var k :| 0 <= k < |t| && t[k] == s[0];
      MatchHead(s, t, k);
      CountPermutation(s[1..], t[..k] + t[k + 1..], cls);
      CountRemove(t, k, cls);
    }
  }

  /** Every index names a character of `pool`. */
  predicate PicksFrom(picks: seq<nat>, pool: string) {
    forall k :: 0 <= k < |picks| ==> picks[k] < |pool|
  }

  /** `[random.choice(pool) for _ in range(n)]` with the chosen indices given:
      one pool character per pick. */
  function Drawn(picks: seq<nat>, pool: string): (r: string)
    requires PicksFrom(picks, pool)
    ensures |r| == |picks|
    ensures forall k :: 0 <= k < |r| ==> r[k] in pool
  {
    seq(|picks|, k requires 0 <= k < |picks| => pool[picks[k]])
  }

  /** The draws `random.shuffle` makes on a list of length `n`: the `k`-th one is
      the partner of position `n - 1 - k`, at most that position. */
  predicate ShuffleDraws(n: nat, draws: seq<nat>) {
    && |draws| == (if n == 0 then 0 else n - 1)
    && forall k :: 0 <= k < |draws| ==> draws[k] <= n - 1 - k
  }

  /** `random.shuffle` with its draws given: a rearrangement of `xs`. */
  method Shuffle(xs: string, draws: seq<nat>) returns (r: string)
    requires ShuffleDraws(|xs|, draws)
    ensures |r| == |xs|
    ensures multiset(r) == multiset(xs)
  {
    r := xs;
    var k := 0;
    while k < |draws|
      invariant 0 <= k <= |draws|
      invariant |r| == |xs|
      invariant multiset(r) == multiset(xs)
    {
      var i := |xs| - 1 - k;
      var j := draws[k];
      r := r[i := r[j]][j := r[i]];
      k := k + 1;
    }
  }

  /** The letters, symbols and digits drawn, concatenated in that order, before the shuffle. */
  method Compose(letterPicks: seq<nat>, symbolPicks: seq<nat>, digitPicks: seq<nat>) returns (joined: string)
    requires PicksFrom(letterPicks, Letters)
    requires PicksFrom(symbolPicks, Symbols)
    requires PicksFrom(digitPicks, Digits)
    ensures |joined| == |letterPicks| + |symbolPicks| + |digitPicks|
    ensures forall k :: 0 <= k < |joined| ==> IsLetter(joined[k]) || IsSymbol(joined[k]) || IsDigit(joined[k])
    ensures Count(joined, Letter) == |letterPicks|
    ensures Count(joined, Symbol) == |symbolPicks|
    ensures Count(joined, Digit) == |digitPicks|
    ensures joined == Drawn(letterPicks, Letters) + Drawn(symbolPicks, Symbols) + Drawn(digitPicks, Digits)
  {
    var letters := Drawn(letterPicks, Letters);
    var symbols := Drawn(symbolPicks, Symbols);
    var digits := Drawn(digitPicks, Digits);
    forall k | 0 <= k < |letters| ensures IsLetter(letters[k]) {
      LetterAt(letterPicks[k]);
    }
    forall k | 0 <= k < |symbols| ensures IsSymbol(symbols[k]) {
      SymbolAt(symbolPicks[k]);
    }
    forall k | 0 <= k < |digits| ensures IsDigit(digits[k]) {
      DigitAt(digitPicks[k]);
    }
    joined := letters + symbols + digits;
    ClassCounts(letters, symbols, digits);
  }

  /** A rearrangement of the composed characters keeps every class and every count. */
  lemma Rearranged(joined: string, password: string)
    requires multiset(password) == multiset(joined)
    requires forall k :: 0 <= k < |joined| ==> IsLetter(joined[k]) || IsSymbol(joined[k]) || IsDigit(joined[k])
    ensures |password| == |joined|
    ensures forall k :: 0 <= k < |password| ==>
              IsLetter(password[k]) || IsSymbol(password[k]) || IsDigit(password[k])
    ensures Count(password, Letter) == Count(joined, Letter)
    ensures Count(password, Symbol) == Count(joined, Symbol)
    ensures Count(password, Digit) == Count(joined, Digit)
  {
    assert |password| == |multiset(password)| == |multiset(joined)| == |joined|;
    forall k | 0 <= k < |password|
      ensures IsLetter(password[k]) || IsSymbol(password[k]) || IsDigit(password[k])
    {
      assert password[k] in multiset(joined);
    }
    CountPermutation(password, joined, Letter);
    CountPermutation(password, joined, Symbol);
    CountPermutation(password, joined, Digit);
  }

  /**
   `generate_password` with its random draws given: the counts are the lengths
   of the pick sequences, within the ranges `random.randint` draws them from.
   */
  method GeneratePassword(letterPicks: seq<nat>, symbolPicks: seq<nat>, digitPicks: seq<nat>,
                          shuffleDraws: seq<nat>) returns (password: string)
    requires 8 <= |letterPicks| <= 10 && PicksFrom(letterPicks, Letters)
    requires 2 <= |symbolPicks| <= 4 && PicksFrom(symbolPicks, Symbols)
    requires 2 <= |digitPicks| <= 4 && PicksFrom(digitPicks, Digits)
    requires ShuffleDraws(|letterPicks| + |symbolPicks| + |digitPicks|, shuffleDraws)
    ensures 12 <= |password| <= 18
    ensures forall k :: 0 <= k < |password| ==>
              IsLetter(password[k]) || IsSymbol(password[k]) || IsDigit(password[k])
    ensures Count(password, Letter) == |letterPicks|
    ensures Count(password, Symbol) == |symbolPicks|
    ensures Count(password, Digit) == |digitPicks|
    ensures multiset(password) ==
            multiset(Drawn(letterPicks, Letters) + Drawn(symbolPicks, Symbols) + Drawn(digitPicks, Digits))
  {
    var joined := Compose(letterPicks, symbolPicks, digitPicks);
    password := Shuffle(joined, shuffleDraws);
    Rearranged(joined, password);
  }

  /** Letters, then symbols, then digits: the concatenation holds each class's draws and no more. */
  lemma ClassCounts(letters: string, symbols: string, digits: string)
    requires forall k :: 0 <= k < |letters| ==> IsLetter(letters[k])
    requires forall k :: 0 <= k < |symbols| ==> IsSymbol(symbols[k])
    requires forall k :: 0 <= k < |digits| ==> IsDigit(digits[k])
    ensures Count(letters + symbols + digits, Letter) == |letters|
    ensures Count(letters + symbols + digits, Symbol) == |symbols|
    ensures Count(letters + symbols + digits, Digit) == |digits|
  {
    CountAll(letters, Letter);
    CountNone(symbols, Letter);
    CountNone(digits, Letter);
    CountOfThree(letters, symbols, digits, Letter);
    CountNone(letters, Symbol);
    CountAll(symbols, Symbol);
    CountNone(digits, Symbol);
    CountOfThree(letters, symbols, digits, Symbol);
    CountNone(letters, Digit);
    CountNone(symbols, Digit);
    CountAll(digits, Digit);
    CountOfThree(letters, symbols, digits, Digit);
  }

  /** Counting over a concatenation of three strings. */
  lemma CountOfThree(a: string, b: string, c: string, cls: CharClass)
    ensures Count(a + b + c, cls) == Count(a, cls) + Count(b, cls) + Count(c, cls)
  {
    CountAppend(a + b, c, cls);
    CountAppend(a, b, cls);
  }
}
