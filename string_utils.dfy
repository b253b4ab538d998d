/**
 * String helpers of the trading bot: splitting on a delimiter the way
 * `std::getline` does, extracting the first word of a string, and the
 * generator of hexadecimal-looking identifiers (random, or deterministic
 * from a global counter).
 */
module StringUtils {

  import opened Wrappers

  // ---------------------------------------------------------------------
  // split
  // ---------------------------------------------------------------------

  /**
   * Tokens produced by repeated `getline(stream, token, d)` on the rest
   * `s`, where `cur` holds the characters of the token read so far. A
   * delimiter ends a token; at the end of the input a non-empty partial
   * token is one more token, an empty one is not.
   */
  function SplitFrom(s: string, d: char, cur: string): seq<string>
    decreases |s|
  {
    if s == [] then (if cur == [] then [] else [cur])
    else if s[0] == d then [cur] + SplitFrom(s[1..], d, [])
    else SplitFrom(s[1..], d, cur + [s[0]])
  }

  function Tokens(s: string, d: char): seq<string> { SplitFrom(s, d, []) }

  /** The inverse direction: tokens glued together with the delimiter. */
  function Join(ts: seq<string>, d: char): string
  {
    if |ts| == 0 then []
    else if |ts| == 1 then ts[0]
    else ts[0] + [d] + Join(ts[1..], d)
  }

  /** `s` without one trailing delimiter, which `getline` swallows. */
  function DropTrailing(s: string, d: char): string
  {
    if s != [] && s[|s| - 1] == d then s[..|s| - 1] else s
  }

  lemma {:induction false} SplitFromJoin(s: string, d: char, cur: string)
    requires d !in cur
    ensures Join(SplitFrom(s, d, cur), d) == DropTrailing(cur + s, d)
    ensures forall t :: t in SplitFrom(s, d, cur) ==> d !in t
    ensures cur + s != [] ==> |SplitFrom(s, d, cur)| >= 1
    decreases |s|
  {
    if s == [] {
      assert cur + s == cur;
    } else if s[0] == d {
      SplitFromJoin(s[1..], d, []);
      SplitAtDelimiter(s, d, cur);
    } else {
      assert d !in cur + [s[0]];
      SplitFromJoin(s[1..], d, cur + [s[0]]);
      assert cur + [s[0]] + s[1..] == cur + s;
    }
  }

  /** The step of SplitFromJoin where the next character is the delimiter. */
  lemma SplitAtDelimiter(s: string, d: char, cur: string)
    requires d !in cur && s != [] && s[0] == d
    requires Join(SplitFrom(s[1..], d, []), d) == DropTrailing(s[1..], d)
    requires forall t :: t in SplitFrom(s[1..], d, []) ==> d !in t
    requires s[1..] != [] ==> |SplitFrom(s[1..], d, [])| >= 1
    ensures Join(SplitFrom(s, d, cur), d) == DropTrailing(cur + s, d)
    ensures forall t :: t in SplitFrom(s, d, cur) ==> d !in t
  {
    var rest := SplitFrom(s[1..], d, []);
    assert SplitFrom(s, d, cur) == [cur] + rest;
    if s[1..] == [] {
      assert rest == [];
      assert cur + s == cur + [d];
      assert Join([cur], d) == cur;
    } else {
      assert ([cur] + rest)[1..] == rest;
      assert Join([cur] + rest, d) == cur + [d] + Join(rest, d);
      assert cur + s == (cur + [d]) + s[1..];
      assert DropTrailing(cur + s, d) == cur + [d] + DropTrailing(s[1..], d);
    }
  }

  /** `split(s, d)`: no token holds `d`, and the tokens rejoined give `s` back
    * (without one trailing delimiter); the empty string has no tokens. */
  lemma TokensJoin(s: string, d: char)
    ensures s == [] ==> Tokens(s, d) == []
    ensures s != [] ==> |Tokens(s, d)| >= 1
    ensures forall t :: t in Tokens(s, d) ==> d !in t
    ensures Join(Tokens(s, d), d) == DropTrailing(s, d)
  {
    SplitFromJoin(s, d, []);
    assert [] + s == s;
  }

  /** Tokens without the delimiter are recovered from their join, so splitting
    * is the exact inverse of joining. */
  lemma JoinSplit(ts: seq<string>, d: char)
    requires forall k :: 0 <= k < |ts| ==> d !in ts[k]
    requires |ts| >= 1 && ts[|ts| - 1] != []
    ensures Tokens(Join(ts, d), d) == ts
  {
    JoinSplitFrom(ts, d, []);
    assert [] + ts[0] == ts[0];
  }

  lemma {:induction false} JoinSplitFrom(ts: seq<string>, d: char, cur: string)
    requires forall k :: 0 <= k < |ts| ==> d !in ts[k]
    requires |ts| >= 1 && (if |ts| == 1 then cur + ts[0] != [] else ts[|ts| - 1] != [])
    requires d !in cur
    ensures SplitFrom(Join(ts, d), d, cur) == [cur + ts[0]] + ts[1..]
    decreases |Join(ts, d)|
  {
    if ts[0] == [] {
      if |ts| == 1 {
        assert cur + ts[0] == cur;
      } else {
        var j := Join(ts[1..], d);
        assert Join(ts, d) == [d] + j by { assert ts[0] + [d] == [d]; }
        assert ([d] + j)[1..] == j;
        JoinSplitFrom(ts[1..], d, []);
        assert [] + ts[1] == ts[1];
        assert [ts[1]] + ts[2..] == ts[1..];
        assert cur + ts[0] == cur;
      }
    } else {
      var c := ts[0][0];
      var ts' := [ts[0][1..]] + ts[1..];
      JoinPeel(ts, d);
      assert d != c by { assert c == ts[0][0]; }
      assert forall k :: 0 <= k < |ts'| ==> d !in ts'[k] by {
        forall k | 0 <= k < |ts'| ensures d !in ts'[k] {
          if k == 0 {
            assert ts'[0] == ts[0][1..];
          } else {
            assert ts'[k] == ts[k];
          }
        }
      }
      assert d !in cur + [c];
      JoinSplitFrom(ts', d, cur + [c]);
      assert cur + [c] + ts'[0] == cur + ts[0] by { assert ts[0] == [c] + ts[0][1..]; }
      assert ts'[1..] == ts[1..];
    }
  }

  /** Taking the first character off the first token takes it off the join. */
  lemma JoinPeel(ts: seq<string>, d: char)
    requires |ts| >= 1 && ts[0] != []
    ensures Join(ts, d) == [ts[0][0]] + Join([ts[0][1..]] + ts[1..], d)
  {
    var ts' := [ts[0][1..]] + ts[1..];
    assert ts[0] == [ts[0][0]] + ts[0][1..];
    if |ts| > 1 {
      assert ts'[1..] == ts[1..];
    }
  }

  /** `split` as the source runs it: one pass, one token buffer. */
  method Split(s: string, d: char) returns (tokens: seq<string>)
    ensures tokens == Tokens(s, d)
  {
    tokens := [];
    var token: string := [];
    var i := 0;
    while i < |s|
      invariant 0 <= i <= |s|
      invariant tokens + SplitFrom(s[i..], d, token) == Tokens(s, d)
    {
      assert s[i..][1..] == s[i + 1..];
      if s[i] == d {
        tokens := tokens + [token];
        token := [];
      } else {
        token := token + [s[i]];
      }
      i := i + 1;
    }
    if token != [] {
      tokens := tokens + [token];
    }
  }

  // ---------------------------------------------------------------------
  // trimString: the first whitespace-separated word
  // ---------------------------------------------------------------------

  /** `isspace` in the classic locale. */
  predicate IsSpace(c: char)
  {
    c == ' ' || c == '\t' || c == '\n' || c == '\r' || c == '\U{B}' || c == '\U{C}'
  }

  function SkipSpaces(s: string): (i: nat)
    ensures i <= |s|
    ensures forall k :: 0 <= k < i ==> IsSpace(s[k])
    ensures i < |s| ==> !IsSpace(s[i])
  {
    if s == [] || !IsSpace(s[0]) then 0 else 1 + SkipSpaces(s[1..])
  }

  function WordEnd(s: string, i: nat): (j: nat)
    requires i <= |s|
    ensures i <= j <= |s|
    ensures forall k :: i <= k < j ==> !IsSpace(s[k])
    ensures j < |s| ==> IsSpace(s[j])
    decreases |s| - i
  {
    if i == |s| || IsSpace(s[i]) then i else WordEnd(s, i + 1)
  }

  /**
   * `trimString`: streaming the string in and one word back out. When no
   * word can be extracted (empty or blank input) the extraction fails and
   * the argument is returned unchanged.
   */
  function TrimString(s: string): (r: string)
    ensures (forall k :: 0 <= k < |s| ==> IsSpace(s[k])) ==> r == s
    ensures (exists k :: 0 <= k < |s| && !IsSpace(s[k])) ==>
              r != [] && (forall k :: 0 <= k < |r| ==> !IsSpace(r[k])) &&
              exists i, j :: 0 <= i < j <= |s| && r == s[i..j] &&
                (forall k :: 0 <= k < i ==> IsSpace(s[k])) && (j == |s| || IsSpace(s[j]))
  {
    var i := SkipSpaces(s);
    if i == |s| then s else s[i..WordEnd(s, i)]
  }

  // ---------------------------------------------------------------------
  // generateRandomHEXstring
  // ---------------------------------------------------------------------

  const HexAlphabet: string := "abcdef0123456789"

  function Pow6(k: nat): (p: nat)
    ensures p >= 1
  {
    if k == 0 then 1 else 6 * Pow6(k - 1)
  }

  /**
   * The deterministic branch AS WRITTEN: position `idx` of a string of
   * length `n` is `'a' + offset / 6^(n-idx-1)` (a floating-point quotient
   * truncated back to a character; `char` narrowing taken modulo 256).
   */
  function DeterministicAsWritten(offset: nat, n: nat): (s: string)
    ensures |s| == n
  {
    seq(n, idx requires 0 <= idx < n => ((97 + offset / Pow6(n - idx - 1)) % 256) as char)
  }

  /** With offset 6 and length 2 the generator yields "bg": 'g' is not a hex digit. */
  lemma AsWrittenLeavesHexAlphabet()
    ensures DeterministicAsWritten(6, 2) == "bg"
    ensures DeterministicAsWritten(6, 2)[1] !in HexAlphabet
  {
    assert Pow6(1) == 6;
    assert DeterministicAsWritten(6, 2)[0] == 'b';
    assert DeterministicAsWritten(6, 2)[1] == 'g';
  }

  /** The evidently intended encoding: `offset` written in base 6 with the digits 'a'..'f'. */
  function BaseSixLetters(offset: nat, n: nat): (s: string)
    ensures |s| == n
    ensures forall k :: 0 <= k < n ==> 'a' <= s[k] <= 'f'
  {
    if n == 0 then [] else BaseSixLetters(offset / 6, n - 1) + [(97 + offset % 6) as char]
  }

  /** Position `idx` holds the base-6 digit of weight 6^(n-idx-1). */
  lemma {:induction false} BaseSixLettersAt(offset: nat, n: nat, idx: nat)
    requires idx < n
    ensures BaseSixLetters(offset, n)[idx] as int == 97 + (offset / Pow6(n - idx - 1)) % 6
  {
    if idx < n - 1 {
      BaseSixLettersAt(offset / 6, n - 1, idx);
      DivDiv6(offset, n - 1 - idx - 1);
    }
  }

  lemma DivDiv6(x: nat, k: nat)
    ensures x / 6 / Pow6(k) == x / Pow6(k + 1)
  {
    var p := Pow6(k);
    var q := x / 6 / p;
    var r1 := x % 6;
    var r2 := (x / 6) % p;
    assert x / 6 == q * p + r2;
    assert x == 6 * (x / 6) + r1;
    assert x == q * (6 * p) + (6 * r2 + r1);
    assert 0 <= 6 * r2 + r1 < 6 * p;
    DivUnique(x, 6 * p, q, 6 * r2 + r1);
  }

  /** Distinct counter values below 6^n give distinct strings: the ids do not collide. */
  lemma {:induction false} BaseSixLettersInjective(o1: nat, o2: nat, n: nat)
    requires o1 < Pow6(n) && o2 < Pow6(n)
    requires BaseSixLetters(o1, n) == BaseSixLetters(o2, n)
    ensures o1 == o2
  {
    if n > 0 {
      var s1, s2 := BaseSixLetters(o1, n), BaseSixLetters(o2, n);
      assert s1[n - 1] == s2[n - 1];
      assert o1 % 6 == o2 % 6;
      assert s1[..n - 1] == BaseSixLetters(o1 / 6, n - 1);
      assert s2[..n - 1] == BaseSixLetters(o2 / 6, n - 1);
      BaseSixLettersInjective(o1 / 6, o2 / 6, n - 1);
    }
  }

  /**
   * The generator with its global state: whether randomness is on, and the
   * counter of the deterministic branch. Random draws from the uniform
   * distribution over the 16 characters are supplied by the caller.
   */
  class HexGenerator {
    var random: bool
    var offset: nat

    constructor (random: bool)
      ensures this.random == random && offset == 0
    {
      this.random := random;
      offset := 0;
    }

    method Generate(length: nat, draws: seq<nat>) returns (s: string)
      requires random ==> |draws| >= length && forall k :: 0 <= k < |draws| ==> draws[k] < 16
      modifies this
      ensures this.random == old(random)
      ensures |s| == length
      ensures random ==> s == seq(length, k requires 0 <= k < length => HexAlphabet[draws[k]])
      ensures random ==> offset == old(offset)
      ensures !random ==> s == BaseSixLetters(old(offset), length) && offset == old(offset) + 1
      ensures forall k :: 0 <= k < |s| ==> s[k] in HexAlphabet
    {
      s := [];
      if random {
        var i := 0;
        while i < length
          invariant 0 <= i <= length
          invariant s == seq(i, k requires 0 <= k < i => HexAlphabet[draws[k]])
        {
          s := s + [HexAlphabet[draws[i]]];
          i := i + 1;
        }
      } else {
        s := BaseSixLetters(offset, length);
        offset := offset + 1;
      }
      assert forall c :: 'a' <= c <= 'f' ==> c in HexAlphabet by {
        assert HexAlphabet[0..6] == "abcdef";
      }
    }
  }
}
