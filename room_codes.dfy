/**
 * Room codes: the generator behind `createRoom` and the normalisation and
 * format check that `joinRoom` applies to a code typed by a user.
 */
module RoomCodes {
  import opened Text

  /** 32 symbols: the upper-case letters and digits without 0, O, 1 and I. */
  const Alphabet := "ABCDEFGHJKLMNPQRSTUVWXYZ23456789"
  const CodeLength := 6

  /** A code the generator can produce. */
  predicate IsGeneratedCode(s: string) {
    |s| == CodeLength && forall k :: 0 <= k < |s| ==> s[k] in Alphabet
  }

  predicate IsPatternChar(ch: char) {
    'A' <= ch <= 'Z' || '0' <= ch <= '9'
  }

  /** The format `joinRoom` accepts: the regular expression `^[A-Z0-9]{6}$`. */
  predicate MatchesCodePattern(s: string) {
    |s| == CodeLength && forall k :: 0 <= k < |s| ==> IsPatternChar(s[k])
  }

  /** `roomCode.toUpperCase().trim()`. */
  function NormalizeRoomCode(raw: string): (code: string)
    ensures |code| <= 3 * |raw|
    ensures Unpadded(code)
  {
    Trim(ToUpper(raw))
  }

  /** The random draws of one generator call: one index below 32 per character,
      standing for `Math.floor(Math.random() * chars.length)`. */
  predicate ValidDraws(draws: seq<nat>) {
    |draws| == CodeLength && forall k :: 0 <= k < |draws| ==> draws[k] < |Alphabet|
  }

  function CodeFromDraws(draws: seq<nat>): (code: string)
    requires ValidDraws(draws)
    ensures IsGeneratedCode(code)
  {
    seq(CodeLength, k requires 0 <= k < CodeLength => Alphabet[draws[k]])
  }

  /** `generateRoomCode`: six draws, each appended as the alphabet symbol it selects. */
  method GenerateRoomCode(draws: seq<nat>) returns (code: string)
    requires ValidDraws(draws)
    ensures IsGeneratedCode(code)
    ensures forall k :: 0 <= k < CodeLength ==> code[k] == Alphabet[draws[k]]
    ensures code == CodeFromDraws(draws)
  {
    code := "";
    for i := 0 to CodeLength
      invariant |code| == i
      invariant forall k :: 0 <= k < i ==> code[k] == Alphabet[draws[k]]
    {
      code := code + [Alphabet[draws[i]]];
    }
  }

  /** Every attempt is a valid batch of draws. */
  predicate ValidAttempts(attempts: seq<seq<nat>>) {
    forall i :: 0 <= i < |attempts| ==> ValidDraws(attempts[i])
  }

  /** Some attempt yields a code not in `taken`. */
  predicate SomeAttemptFree(taken: set<string>, attempts: seq<seq<nat>>)
    requires ValidAttempts(attempts)
  {
    exists i :: 0 <= i < |attempts| && CodeFromDraws(attempts[i]) !in taken
  }

  /** The code `createRoom`'s retry loop settles on: the first attempt whose
      code is not taken. */
  function FirstFreeCode(taken: set<string>, attempts: seq<seq<nat>>): (code: string)
    requires ValidAttempts(attempts) && SomeAttemptFree(taken, attempts)
    ensures code !in taken && IsGeneratedCode(code)
  {
    var first := CodeFromDraws(attempts[0]);
    if first !in taken then first
    else
      var i :| 0 <= i < |attempts| && CodeFromDraws(attempts[i]) !in taken;
      assert CodeFromDraws(attempts[1..][i - 1]) !in taken;
      FirstFreeCode(taken, attempts[1..])
  }

  /** The chosen code is that of some attempt, and every earlier attempt's
      code was taken: the loop retries exactly on collisions. */
  lemma {:induction false} FirstFreeCodeIsFirst(taken: set<string>, attempts: seq<seq<nat>>)
    requires ValidAttempts(attempts) && SomeAttemptFree(taken, attempts)
    ensures exists i :: 0 <= i < |attempts| && FirstFreeCode(taken, attempts) == CodeFromDraws(attempts[i]) &&
              (forall j :: 0 <= j < i ==> CodeFromDraws(attempts[j]) in taken)
  {
    if CodeFromDraws(attempts[0]) !in taken {
      assert FirstFreeCode(taken, attempts) == CodeFromDraws(attempts[0]);
    } else {
      var rest := attempts[1..];
      var k :| 0 <= k < |attempts| && CodeFromDraws(attempts[k]) !in taken;
      assert CodeFromDraws(rest[k - 1]) !in taken;
      FirstFreeCodeIsFirst(taken, rest);
      var i :| 0 <= i < |rest| && FirstFreeCode(taken, rest) == CodeFromDraws(rest[i]) &&
        forall j :: 0 <= j < i ==> CodeFromDraws(rest[j]) in taken;
      assert forall j :: 1 <= j < i + 1 ==> attempts[j] == rest[j - 1];
      assert FirstFreeCode(taken, attempts) == CodeFromDraws(attempts[i + 1]);
    }
  }

  /** The position of a symbol in the alphabet. */
  function Rank(ch: char): int {
    if 'A' <= ch <= 'H' then ch as int - 'A' as int
    else if 'J' <= ch <= 'N' then ch as int - 'J' as int + 8
    else if 'P' <= ch <= 'Z' then ch as int - 'P' as int + 13
    else ch as int - '2' as int + 24
  }

  /** The alphabet has 32 distinct symbols, all upper-case letters or digits,
      and leaves out the ambiguous 0, O, 1 and I. */
  lemma AlphabetShape()
    ensures |Alphabet| == 32
    ensures forall i, j :: 0 <= i < j < |Alphabet| ==> Alphabet[i] != Alphabet[j]
    ensures '0' !in Alphabet && 'O' !in Alphabet && '1' !in Alphabet && 'I' !in Alphabet
    ensures forall k :: 0 <= k < |Alphabet| ==> IsPatternChar(Alphabet[k])
  {
    AlphabetRanks();
  }

  predicate InAlphabetRanges(ch: char) {
    ('A' <= ch <= 'H') || ('J' <= ch <= 'N') || ('P' <= ch <= 'Z') || ('2' <= ch <= '9')
  }

  /** Symbol by symbol: A to H, J to N, P to Z, then 2 to 9, in that order. */
  lemma AlphabetRanks()
    ensures forall k :: 0 <= k < |Alphabet| ==> InAlphabetRanges(Alphabet[k]) && Rank(Alphabet[k]) == k
  {
  }

  function IndexIn(ch: char, s: string): (i: nat)
    requires ch in s
    ensures i < |s| && s[i] == ch
  {
    if s[0] == ch then 0 else 1 + IndexIn(ch, s[1..])
  }

  /** Every code of the right shape can come out of the generator. */
  lemma EveryCodeIsGenerated(code: string)
    requires IsGeneratedCode(code)
    ensures exists draws :: ValidDraws(draws) && CodeFromDraws(draws) == code
  {
    var draws := seq(CodeLength, k requires 0 <= k < CodeLength => IndexIn(code[k], Alphabet));
    assert CodeFromDraws(draws) == code;
  }

  /** Upper-casing leaves a string of upper-case letters and digits unchanged. */
  lemma UpperOfPatternChar(ch: char)
    requires IsPatternChar(ch)
    ensures UpperOf(ch) == [ch]
  {
  }

  lemma UpperOfAscii(ch: char)
    requires ch < '\U{0080}'
    ensures |UpperOf(ch)| == 1
  {
  }

  lemma UpperOfPattern(s: string)
    requires forall k :: 0 <= k < |s| ==> IsPatternChar(s[k])
    ensures ToUpper(s) == s
  {
    forall k | 0 <= k < |s|
      ensures |UpperOf(s[k])| == 1 && UpperChar(s[k]) == s[k]
    {
      UpperOfPatternChar(s[k]);
    }
    ToUpperCharwise(s);
  }

  /** A generated code passes the `joinRoom` format check and survives its
      normalisation unchanged, so a created room can be joined by its code. */
  lemma GeneratedCodeIsJoinable(code: string)
    requires IsGeneratedCode(code)
    ensures MatchesCodePattern(code)
    ensures NormalizeRoomCode(code) == code
  {
    AlphabetShape();
    UpperOfPattern(code);
    assert !IsSpace(code[0]) && !IsSpace(code[CodeLength - 1]);
    TrimFixesUnpadded(code);
  }

  /** A lower-case ASCII letter or a digit. */
  predicate IsLowerPatternChar(ch: char) {
    'a' <= ch <= 'z' || '0' <= ch <= '9'
  }

  lemma UpperOfSpaces(s: string)
    requires AllSpace(s)
    ensures ToUpper(s) == s
  {
    forall k | 0 <= k < |s|
      ensures |UpperOf(s[k])| == 1 && UpperChar(s[k]) == s[k]
    {
    }
    ToUpperCharwise(s);
  }

  /** Normalisation makes the code check case-insensitive and blind to
      padding: six letters or digits in any case, wrapped in spaces, come out
      as their upper-case form, which passes the format check. */
  lemma LowerCaseCodeIsNormalized(pre: string, typed: string, post: string)
    requires AllSpace(pre) && AllSpace(post)
    requires |typed| == CodeLength
    requires forall k :: 0 <= k < |typed| ==> IsLowerPatternChar(typed[k]) || IsPatternChar(typed[k])
    ensures NormalizeRoomCode(pre + typed + post) == ToUpper(typed)
    ensures MatchesCodePattern(ToUpper(typed))
  {
    UpperOfTyped(typed);
    PatternIsUnpadded(ToUpper(typed));
    NormalizeOfPadded(pre, typed, post);
  }

  /** A room code typed in lower case is found under its upper-case form. */
  lemma LowerCaseCodeJoins()
    ensures NormalizeRoomCode("k7m3qx") == "K7M3QX"
  {
    assert ToUpper("k7m3qx") == "K7M3QX";
    PatternIsUnpadded("K7M3QX");
    TrimFixesUnpadded("K7M3QX");
  }

  lemma PatternIsUnpadded(u: string)
    requires forall k :: 0 <= k < |u| ==> IsPatternChar(u[k])
    ensures Unpadded(u)
  {
    if u != [] {
      assert IsPatternChar(u[0]) && IsPatternChar(u[|u| - 1]);
    }
  }

  lemma NormalizeOfPadded(pre: string, x: string, post: string)
    requires AllSpace(pre) && AllSpace(post)
    requires ToUpper(x) != [] && Unpadded(ToUpper(x))
    ensures NormalizeRoomCode(pre + x + post) == ToUpper(x)
  {
    ToUpperPadded(pre, x, post);
    TrimOfPadded(pre, ToUpper(x), post);
  }

  lemma UpperOfCodeChar(ch: char)
    requires IsLowerPatternChar(ch) || IsPatternChar(ch)
    ensures |UpperOf(ch)| == 1 && IsPatternChar(UpperChar(ch))
  {
    UpperOfAscii(ch);
  }

  lemma UpperOfTyped(typed: string)
    requires forall k :: 0 <= k < |typed| ==> IsLowerPatternChar(typed[k]) || IsPatternChar(typed[k])
    ensures |ToUpper(typed)| == |typed|
    ensures forall k :: 0 <= k < |typed| ==> IsPatternChar(ToUpper(typed)[k])
  {
    forall k | 0 <= k < |typed|
      ensures |UpperOf(typed[k])| == 1 && IsPatternChar(UpperChar(typed[k]))
    {
      UpperOfCodeChar(typed[k]);
    }
    ToUpperCharwise(typed);
  }

  lemma ToUpperPadded(pre: string, x: string, post: string)
    requires AllSpace(pre) && AllSpace(post)
    ensures ToUpper(pre + x + post) == pre + ToUpper(x) + post
  {
    UpperOfSpaces(pre);
    UpperOfSpaces(post);
    ToUpperAppend(pre, x);
    ToUpperAppend(pre + x, post);
  }

  /** Upper-casing comes before the format check, so a code typed with
      characters that expand can still pass it: three sharp s become six S. */
  lemma SharpSCodeIsNormalized()
    ensures NormalizeRoomCode("\U{00DF}\U{00DF}\U{00DF}") == "SSSSSS"
    ensures MatchesCodePattern("SSSSSS")
  {
    var ss := "\U{00DF}";
    assert UpperOf(ss[0]) == "SS";
    assert ToUpper(ss) == "SS";
    ToUpperAppend(ss, ss);
    ToUpperAppend(ss, ss + ss);
    assert ss + (ss + ss) == "\U{00DF}\U{00DF}\U{00DF}";
    TrimFixesUnpadded("SSSSSS");
  }
}
