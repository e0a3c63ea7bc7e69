/**
  Character-level string helpers: occurrence counting, first-occurrence search
  and Go's `strings.Replace(s, old, new, 1)` for a one-character pattern.
 */
module Text {
  import opened Options

  /** Number of occurrences of `c` in `s`. */
  function Count(s: string, c: char): nat
  {
    if |s| == 0 then 0 else (if s[0] == c then 1 else 0) + Count(s[1..], c)
  }

  /** Index of the first occurrence of `c` in `s`, if there is one. */
  function FirstIndex(s: string, c: char): (r: Option<nat>)
    ensures r.None? <==> c !in s
    ensures r.Some? ==> r.value < |s| && s[r.value] == c && c !in s[..r.value]
  {
    if |s| == 0 then None
    else if s[0] == c then Some(0)
    else
      match FirstIndex(s[1..], c)
      case None => None
      case Some(i) =>
        assert s[..i + 1] == [s[0]] + s[1..][..i];
        Some(i + 1)
  }

  /**
    `s` with the first occurrence of `from` replaced by `to`; every other
    character, including later occurrences of `from`, is kept.
   */
  function ReplaceFirst(s: string, from: char, to: char): (r: string)
    ensures |r| == |s|
    ensures forall j :: 0 <= j < |s| ==>
      r[j] == (if s[j] == from && from !in s[..j] then to else s[j])
  {
    match FirstIndex(s, from)
    case None => s
    case Some(i) =>
      var r := s[..i] + [to] + s[i + 1..];
      assert forall j :: i < j < |s| ==> from in s[..j] by {
        forall j | i < j < |s| ensures from in s[..j] {
          assert s[..j][i] == from;
        }
      }
      assert forall j :: 0 <= j < i ==> from !in s[..j] by {
        forall j | 0 <= j < i ensures from !in s[..j] {
          assert s[..j] == s[..i][..j];
        }
      }
      r
  }

  /** At the first occurrence of `from`, ReplaceFirst splices in `to`. */
  lemma ReplaceAt(s: string, i: nat, from: char, to: char)
    requires i < |s| && s[i] == from && from !in s[..i]
    ensures ReplaceFirst(s, from, to) == s[..i] + [to] + s[i + 1..]
  {
  }

  lemma {:induction false} CountConcat(a: string, b: string, c: char)
    ensures Count(a + b, c) == Count(a, c) + Count(b, c)
  {
    if |a| == 0 {
      assert a + b == b;
    } else {
      assert (a + b)[1..] == a[1..] + b;
      CountConcat(a[1..], b, c);
    }
  }

  /** A character occurs in a string exactly when its count is positive. */
  lemma {:induction false} CountPositive(s: string, c: char)
    ensures Count(s, c) > 0 <==> c in s
  {
    if |s| > 0 {
      CountPositive(s[1..], c);
      assert s == [s[0]] + s[1..];
    }
  }

  /** Replacing the first `from` by a different character removes exactly one occurrence of it. */
  lemma ReplaceFirstCount(s: string, from: char, to: char)
    requires from != to
    ensures Count(ReplaceFirst(s, from, to), from) == Count(s, from) - (if from in s then 1 else 0)
  {
    CountPositive(s, from);
    match FirstIndex(s, from)
    case None =>
    case Some(i) =>
      assert s == s[..i] + [from] + s[i + 1..];
      CountConcat(s[..i] + [from], s[i + 1..], from);
      CountConcat(s[..i], [from], from);
      CountConcat(s[..i] + [to], s[i + 1..], from);
      CountConcat(s[..i], [to], from);
  }
}
