/**
 The search for __DATE__ and __TIME__ in source code: a Boyer-Moore-Horspool search for two
 needles at once, with a table that says how far to jump.
 */
module TemporalMacros {
  import opened Bytes

  const UNDERSCORE: byte := 95

  const DATE: seq<byte> := [95, 95, 68, 65, 84, 69, 95, 95]
  const TIME: seq<byte> := [95, 95, 84, 73, 77, 69, 95, 95]

  const FOUND_DATE: bv8 := 2
  const FOUND_TIME: bv8 := 4

  /** A character that can continue an identifier: a letter, a digit or an underscore. */
  predicate Identifier(c: byte) {
    c == UNDERSCORE || 48 <= c <= 57 || 65 <= c <= 90 || 97 <= c <= 122
  }

  // ---- what is searched for ----

  /** The needle is the whole identifier whose last character is at `end`. */
  predicate EndsAt(str: seq<byte>, needle: seq<byte>, end: nat)
    requires |needle| == 8
  {
    && 7 <= end < |str|
    && str[end - 7..end + 1] == needle
    && (end == 7 || !Identifier(str[end - 8]))
    && (end + 1 == |str| || !Identifier(str[end + 1]))
  }

  /** The needle is an identifier of the string that ends before `limit`. */
  predicate OccursBefore(str: seq<byte>, needle: seq<byte>, limit: nat)
    requires |needle| == 8
  {
    exists end: nat :: end < limit && EndsAt(str, needle, end)
  }

  predicate Occurs(str: seq<byte>, needle: seq<byte>)
    requires |needle| == 8
  {
    OccursBefore(str, needle, |str|)
  }

  /** The macro is found alone and between blanks, and not inside a longer identifier. */
  lemma KnownOccurrences(c: byte)
    ensures EndsAt(DATE, DATE, 7) && EndsAt([32] + TIME + [32], TIME, 8)
    ensures Identifier(c) ==> !EndsAt([c] + DATE, DATE, 8) && !EndsAt(DATE + [c], DATE, 7)
    ensures Identifier(95) && Identifier(48) && Identifier(57) && Identifier(65) && Identifier(90)
    ensures Identifier(97) && Identifier(122) && !Identifier(32) && !Identifier(40) && !Identifier(58) && !Identifier(96)
  {
    assert DATE[0..8] == DATE && ([32] + TIME + [32])[1..9] == TIME;
  }

  // ---- the jump table ----

  /** macro_skip: how far to move on seeing a character at the end of a candidate. */
  function MacroSkip(c: byte): (n: nat)
    ensures 1 <= n <= 8
  {
    if c == UNDERSCORE then 1
    else if c == 65 then 4
    else if c == 68 then 5
    else if c == 69 then 2
    else if c == 73 then 4
    else if c == 77 then 3
    else if c == 84 then 3
    else 8
  }

  /** The table is the best possible: it jumps to the first place where either needle has the
      character, and past all of them when there is none. */
  lemma SkipIsExact(c: byte)
    ensures forall k :: 0 <= k < 7 && 7 - MacroSkip(c) < k ==> DATE[k] != c && TIME[k] != c
    ensures MacroSkip(c) < 8 ==> DATE[7 - MacroSkip(c)] == c || TIME[7 - MacroSkip(c)] == c
  {
  }

  /** No jump passes over the end of an occurrence. */
  lemma NothingSkipped(str: seq<byte>, needle: seq<byte>, i: nat, end: nat)
    requires needle == DATE || needle == TIME
    requires i < |str| && i < end < i + MacroSkip(str[i])
    ensures !EndsAt(str, needle, end)
  {
    if EndsAt(str, needle, end) {
      CharAt(str, needle, end, i);
    }
    SkipIsExact(str[i]);
  }

  lemma CharAt(str: seq<byte>, needle: seq<byte>, end: nat, i: nat)
    requires |needle| == 8 && EndsAt(str, needle, end) && i <= end < i + 8
    ensures str[i] == needle[i - (end - 7)]
  {
    assert str[end - 7..end + 1][i - (end - 7)] == str[i];
  }

  lemma Jump(str: seq<byte>, needle: seq<byte>, i: nat)
    requires needle == DATE || needle == TIME
    requires i < |str|
    ensures OccursBefore(str, needle, i + MacroSkip(str[i]))
            <==> OccursBefore(str, needle, i) || EndsAt(str, needle, i)
  {
    var next := i + MacroSkip(str[i]);
    forall end: nat | i < end < next ensures !EndsAt(str, needle, end) {
      NothingSkipped(str, needle, i, end);
    }
    if OccursBefore(str, needle, i) || EndsAt(str, needle, i) {
      assert exists end: nat :: end < next && EndsAt(str, needle, end);
    }
  }

  /** Nothing ends before there are eight characters, or after the string. */
  lemma Outside(str: seq<byte>, needle: seq<byte>, i: nat)
    requires |needle| == 8
    ensures !OccursBefore(str, needle, 7)
    ensures i >= |str| ==> OccursBefore(str, needle, i) == Occurs(str, needle)
  {
  }

  // ---- the code ----

  /** The part of the test that both macros share. */
  predicate Frame(str: seq<byte>, i: nat)
    requires 7 <= i < |str|
  {
    && str[i - 2] == 69
    && str[i] == UNDERSCORE
    && str[i - 7] == UNDERSCORE
    && str[i - 1] == UNDERSCORE
    && str[i - 6] == UNDERSCORE
    && (i < 8 || !Identifier(str[i - 8]))
    && (i + 1 >= |str| || !Identifier(str[i + 1]))
  }

  /** The letters D, A, T. */
  predicate DateLetters(str: seq<byte>, i: nat)
    requires 7 <= i < |str|
  {
    str[i - 5] == 68 && str[i - 4] == 65 && str[i - 3] == 84
  }

  /** The letters T, I, M. */
  predicate TimeLetters(str: seq<byte>, i: nat)
    requires 7 <= i < |str|
  {
    str[i - 5] == 84 && str[i - 4] == 73 && str[i - 3] == 77
  }

  lemma TestIsExact(str: seq<byte>, i: nat)
    requires 7 <= i < |str|
    ensures Frame(str, i) && DateLetters(str, i) <==> EndsAt(str, DATE, i)
    ensures Frame(str, i) && TimeLetters(str, i) <==> EndsAt(str, TIME, i)
  {
    EndsAtSpelled(str, DATE, i);
    EndsAtSpelled(str, TIME, i);
  }

  lemma EndsAtSpelled(str: seq<byte>, needle: seq<byte>, i: nat)
    requires 7 <= i < |str| && |needle| == 8
    ensures str[i - 7..i + 1] == needle
            <==> (str[i] == needle[7] && str[i - 1] == needle[6] && str[i - 2] == needle[5] && str[i - 3] == needle[4]
                  && str[i - 4] == needle[3] && str[i - 5] == needle[2] && str[i - 6] == needle[1] && str[i - 7] == needle[0])
  {
    var s := str[i - 7..i + 1];
    assert s == [str[i - 7], str[i - 6], str[i - 5], str[i - 4], str[i - 3], str[i - 2], str[i - 1], str[i]];
    assert needle == [needle[0], needle[1], needle[2], needle[3], needle[4], needle[5], needle[6], needle[7]];
    if s == needle {
      assert s[0] == needle[0] && s[1] == needle[1] && s[2] == needle[2] && s[3] == needle[3];
      assert s[4] == needle[4] && s[5] == needle[5] && s[6] == needle[6] && s[7] == needle[7];
    }
  }

  /** The bits for what has been found. */
  function Bits(date: bool, time: bool): bv8 {
    (if date then FOUND_DATE else 0) | (if time then FOUND_TIME else 0)
  }

  lemma AddBit(date: bool, time: bool)
    ensures Bits(date, time) | FOUND_DATE == Bits(true, time)
    ensures Bits(date, time) | FOUND_TIME == Bits(date, true)
  {
  }

  /** check_for_temporal_macros: finds exactly what looking at every position would find. */
  method CheckForTemporalMacros(str: seq<byte>) returns (result: bv8)
    ensures result == Bits(Occurs(str, DATE), Occurs(str, TIME))
  {
    result := 0;
    var i := 7;
    Outside(str, DATE, 7);
    Outside(str, TIME, 7);
    while i < |str|
      invariant 7 <= i
      invariant result == Bits(OccursBefore(str, DATE, i), OccursBefore(str, TIME, i))
    {
      TestIsExact(str, i);
      AddBit(OccursBefore(str, DATE, i), OccursBefore(str, TIME, i));
      Jump(str, DATE, i);
      Jump(str, TIME, i);
      if Frame(str, i) {
        if DateLetters(str, i) {
          result := result | FOUND_DATE;
        } else if TimeLetters(str, i) {
          result := result | FOUND_TIME;
        }
      }
      i := i + MacroSkip(str[i]);
    }
    Outside(str, DATE, i);
    Outside(str, TIME, i);
  }
}
