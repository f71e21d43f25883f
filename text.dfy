/**
 * The string operations the download rules rely on, as Python defines them:
 * `str.lower` on the ASCII letters, `str.split()` with no separator and `str(n)`
 * for a natural number.
 */
module Text {
  import Grid

  /** `c.isspace()` in Python 3. */
  predicate IsSpace(c: char) {
    || c == ' ' || '\t' <= c <= '\r' || '\U{1c}' <= c <= '\U{1f}'
    || c == '\U{85}' || c == '\U{a0}' || c == '\U{1680}' || '\U{2000}' <= c <= '\U{200a}'
    || c == '\U{2028}' || c == '\U{2029}' || c == '\U{202f}' || c == '\U{205f}' || c == '\U{3000}'
  }

  /** A token of `str.split()`: non-empty and free of whitespace. */
  predicate IsToken(t: string) {
    |t| > 0 && forall k :: 0 <= k < |t| ==> !IsSpace(t[k])
  }

  /** `c.lower()` restricted to ASCII: upper-case letters map to lower case, all else is kept. */
  function LowerChar(c: char): (r: char)
    ensures !('A' <= r <= 'Z')
    ensures !('A' <= c <= 'Z') ==> r == c
  {
    if 'A' <= c <= 'Z' then (c as int - 'A' as int + 'a' as int) as char else c
  }

  /** `s.lower()` on ASCII text. */
  function Lower(s: string): (r: string)
    ensures |r| == |s|
    ensures forall k :: 0 <= k < |s| ==> r[k] == LowerChar(s[k])
  {
    seq(|s|, k requires 0 <= k < |s| => LowerChar(s[k]))
  }

  /** Lower-casing twice is lower-casing once. */
  lemma LowerIdempotent(s: string)
    ensures Lower(Lower(s)) == Lower(s)
  {
    var once := Lower(s);
    forall k | 0 <= k < |s|
      ensures Lower(once)[k] == once[k]
    {
      assert !('A' <= once[k] <= 'Z');
    }
  }

  /** Leading whitespace removed. */
  function DropSpace(s: string): (t: string)
    ensures |t| <= |s| && t == s[|s| - |t|..]
    ensures t != [] ==> !IsSpace(t[0])
    ensures forall k :: 0 <= k < |s| - |t| ==> IsSpace(s[k])
  {
    if s != [] && IsSpace(s[0]) then DropSpace(s[1..]) else s
  }

  /** The longest prefix of `s` without whitespace. */
  function Word(s: string): (w: string)
    ensures |w| <= |s| && w == s[..|w|]
    ensures forall k :: 0 <= k < |w| ==> !IsSpace(w[k])
    ensures |w| < |s| ==> IsSpace(s[|w|])
  {
    if s == [] || IsSpace(s[0]) then [] else [s[0]] + Word(s[1..])
  }

  /** `s` with every whitespace character removed. */
  function NonSpace(s: string): string
  {
    if s == [] then [] else (if IsSpace(s[0]) then [] else [s[0]]) + NonSpace(s[1..])
  }

  /**
   * The number of maximal runs of non-whitespace characters in `s`, counted
   * at the character that ends each run: a non-whitespace character that is
   * last or followed by whitespace.
   */
  function Runs(s: string): nat
  {
    if s == [] then 0
    else if !IsSpace(s[0]) && (|s| == 1 || IsSpace(s[1])) then 1 + Runs(s[1..])
    else Runs(s[1..])
  }

  /** Leading whitespace holds no character and ends no run. */
  lemma {:induction false} DropSpaceInvisible(s: string)
    ensures NonSpace(DropSpace(s)) == NonSpace(s)
    ensures Runs(DropSpace(s)) == Runs(s)
  {
    if s != [] && IsSpace(s[0]) {
      DropSpaceInvisible(s[1..]);
    }
  }

  /** A string that starts with a token holds that word's characters and run, then those of what follows. */
  lemma {:induction false} WordSplitOff(t: string)
    requires t != [] && !IsSpace(t[0])
    ensures NonSpace(t) == Word(t) + NonSpace(t[|Word(t)|..])
    ensures Runs(t) == 1 + Runs(t[|Word(t)|..])
  {
    if |t| > 1 && !IsSpace(t[1]) {
      var tail := t[1..];
      WordSplitOff(tail);
      assert t[|Word(t)|..] == tail[|Word(tail)|..];
    }
  }

  /** `s.split()`: the maximal runs of non-whitespace characters, in order. */
  function Split(s: string): (r: seq<string>)
    ensures forall k :: 0 <= k < |r| ==> IsToken(r[k])
    decreases |s|
  {
    var t := DropSpace(s);
    if t == [] then [] else
      var w := Word(t);
      [w] + Split(t[|w|..])
  }

  /**
   * The pieces of `s.split()`, concatenated, are the non-whitespace
   * characters of `s`, and there is one piece per run of them.
   */
  lemma {:induction false} SplitPieces(s: string)
    ensures Grid.Flatten(Split(s)) == NonSpace(s)
    ensures |Split(s)| == Runs(s)
    decreases |s|
  {
    var t := DropSpace(s);
    DropSpaceInvisible(s);
    if t != [] {
      var w := Word(t);
      WordSplitOff(t);
      var rest := Split(t[|w|..]);
      SplitPieces(t[|w|..]);
      assert Split(s) == [w] + rest;
      assert ([w] + rest)[1..] == rest;
    }
  }

  /** `" ".join(ts)`. */
  function Join(ts: seq<string>): string
  {
    if ts == [] then "" else if |ts| == 1 then ts[0] else ts[0] + " " + Join(ts[1..])
  }

  lemma {:induction false} WordOfToken(t: string, rest: string)
    requires forall k :: 0 <= k < |t| ==> !IsSpace(t[k])
    requires rest == [] || IsSpace(rest[0])
    ensures Word(t + rest) == t
  {
    if t == [] {
      assert t + rest == rest;
    } else {
      assert (t + rest)[1..] == t[1..] + rest;
      WordOfToken(t[1..], rest);
    }
  }

  /** A token followed by whitespace (or nothing) is split off as the first token. */
  lemma SplitToken(t: string, rest: string)
    requires IsToken(t)
    requires rest == [] || IsSpace(rest[0])
    ensures Split(t + rest) == [t] + Split(rest)
  {
    var s := t + rest;
    assert DropSpace(s) == s by { assert s[0] == t[0]; }
    WordOfToken(t, rest);
    assert s[|t|..] == rest;
  }

  /** A leading space does not change the split. */
  lemma SplitSpace(s: string)
    ensures Split(" " + s) == Split(s)
  {
    assert (" " + s)[1..] == s;
    var t := DropSpace(s);
    assert DropSpace(" " + s) == t;
    if t != [] {
      var rest := Split(t[|Word(t)|..]);
      assert Split(" " + s) == [Word(t)] + rest;
      assert Split(s) == [Word(t)] + rest;
    }
  }

  /** Splitting the space-separated join of tokens gives the tokens back. */
  lemma {:induction false} SplitJoin(ts: seq<string>)
    requires forall k :: 0 <= k < |ts| ==> IsToken(ts[k])
    ensures Split(Join(ts)) == ts
  {
    if |ts| == 1 {
      SplitToken(ts[0], "");
      assert ts[0] + "" == ts[0];
      assert Split("") == [];
    } else if |ts| > 1 {
      var head, rest := ts[0], ts[1..];
      var tail := Join(rest);
      assert IsToken(head);
      assert forall k :: 0 <= k < |rest| ==> IsToken(rest[k]);
      JoinCons(ts);
      SplitToken(head, " " + tail);
      SplitSpace(tail);
      SplitJoin(rest);
      calc {
        Split(Join(ts));
        Split(head + (" " + tail));
        [head] + Split(" " + tail);
        [head] + Split(tail);
        [head] + rest;
      }
      ConsTail(ts, Split(Join(ts)));
    }
  }

  lemma ConsTail(ts: seq<string>, r: seq<string>)
    requires |ts| > 0 && r == [ts[0]] + ts[1..]
    ensures r == ts
  {
  }

  lemma JoinCons(ts: seq<string>)
    requires |ts| > 1
    ensures Join(ts) == ts[0] + (" " + Join(ts[1..]))
  {
  }

  /** The decimal digit character for `d`. */
  function DigitChar(d: nat): (c: char)
    requires d < 10
    ensures '0' <= c <= '9' && c as int - '0' as int == d
  {
    ('0' as int + d) as char
  }

  /** `str(n)` for a natural number: its decimal digits, most significant first. */
  function NatToString(n: nat): (s: string)
    ensures |s| > 0
    ensures forall k :: 0 <= k < |s| ==> '0' <= s[k] <= '9'
    ensures s[0] == '0' <==> n == 0
    ensures |s| > 1 ==> s[0] != '0'
    decreases n
  {
    if n < 10 then [DigitChar(n)] else NatToString(n / 10) + [DigitChar(n % 10)]
  }

  /** The number a string of decimal digits denotes. */
  function ParseDigits(s: string): nat
    requires forall k :: 0 <= k < |s| ==> '0' <= s[k] <= '9'
  {
    if s == [] then 0 else 10 * ParseDigits(s[..|s| - 1]) + (s[|s| - 1] as int - '0' as int)
  }

  /** `str` is injective on natural numbers: the digits read back as the number. */
  lemma {:induction false} ParseNatToString(n: nat)
    ensures ParseDigits(NatToString(n)) == n
    decreases n
  {
    if n >= 10 {
      var s := NatToString(n);
      assert s[..|s| - 1] == NatToString(n / 10);
      ParseNatToString(n / 10);
    }
  }

  /** A decimal string is a token of `str.split()`. */
  lemma NatToStringIsToken(n: nat)
    ensures IsToken(NatToString(n))
  {
  }
}
