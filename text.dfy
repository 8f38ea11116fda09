/** String helpers the back-end relies on: the hexadecimal form of ids,
    ASCII lower-casing, literal substring search and `String.prototype.split(" ")`. */
module Text {
  import opened Wrappers

  // ---------------------------------------------------------------------------
  // Id strings: an id's `toString()` / `toHexString()` is its lowercase hex form
  // ---------------------------------------------------------------------------

  function HexDigit(d: nat): (c: char)
    requires d < 16
  {
    if d < 10 then ('0' as int + d) as char else ('a' as int + d - 10) as char
  }

  function DigitValue(c: char): (r: Option<nat>)
    ensures r.Some? ==> r.value < 16 && HexDigit(r.value) == c
  {
    if '0' <= c <= '9' then Some(c as int - '0' as int)
    else if 'a' <= c <= 'f' then Some(c as int - 'a' as int + 10)
    else None
  }

  /** The lowercase hexadecimal rendering of an id, most significant digit first. */
  function IdString(n: nat): (s: string)
    ensures |s| >= 1
    decreases n
  {
    if n < 16 then [HexDigit(n)] else IdString(n / 16) + [HexDigit(n % 16)]
  }

  /** Reads a lowercase hexadecimal string back; None for "" or any other character. */
  function ParseId(s: string): (r: Option<nat>)
    decreases |s|
  {
    if |s| == 0 then None
    else if |s| == 1 then DigitValue(s[0])
    else
      match ParseId(s[..|s| - 1])
      case None => None
      case Some(high) =>
        match DigitValue(s[|s| - 1])
        case None => None
        case Some(low) => Some(high * 16 + low)
  }

  lemma {:induction false} HexDigitValue(d: nat)
    requires d < 16
    ensures DigitValue(HexDigit(d)) == Some(d)
  {
  }

  /** Rendering an id and reading it back gives the id. */
  lemma {:induction false} ParseIdString(n: nat)
    ensures ParseId(IdString(n)) == Some(n)
    decreases n
  {
    if n < 16 {
      HexDigitValue(n);
    } else {
      var s := IdString(n);
      assert s[..|s| - 1] == IdString(n / 16);
      ParseIdString(n / 16);
      HexDigitValue(n % 16);
    }
  }

  /** Two ids have the same string form only if they are the same id. */
  lemma IdStringInjective(a: nat, b: nat)
    ensures IdString(a) == IdString(b) <==> a == b
  {
    if IdString(a) == IdString(b) {
      ParseIdString(a);
      ParseIdString(b);
    }
  }

  // ---------------------------------------------------------------------------
  // Case
  // ---------------------------------------------------------------------------

  function LowerChar(c: char): char {
    if 'A' <= c <= 'Z' then (c as int - 'A' as int + 'a' as int) as char else c
  }

  predicate IsLowerCase(s: string) {
    forall i :: 0 <= i < |s| ==> !('A' <= s[i] <= 'Z')
  }

  /** ASCII lower-casing (what the schema's `lowercase: true` does to ASCII emails). */
  function Lower(s: string): (r: string)
    ensures |r| == |s| && IsLowerCase(r)
    ensures forall i :: 0 <= i < |s| ==> r[i] == LowerChar(s[i])
  {
    seq(|s|, i requires 0 <= i < |s| => LowerChar(s[i]))
  }

  lemma LowerIdempotent(s: string)
    ensures Lower(Lower(s)) == Lower(s)
  {
  }

  /** A string that is already lower case is its own lower-cased form. */
  lemma LowerOfLowerCase(s: string)
    requires IsLowerCase(s)
    ensures Lower(s) == s
  {
  }

  // ---------------------------------------------------------------------------
  // Substring search
  // ---------------------------------------------------------------------------

  /** `needle` occurs somewhere in `hay` (a literal, case-sensitive match). */
  function Occurs(needle: string, hay: string): (b: bool)
    decreases |hay|
  {
    |needle| <= |hay| && (hay[..|needle|] == needle || Occurs(needle, hay[1..]))
  }

  predicate OccursAtIndex(needle: string, hay: string, i: int) {
    0 <= i && i + |needle| <= |hay| && hay[i..i + |needle|] == needle
  }

  /** `Occurs` is the usual "there is a position where the needle starts". */
  lemma {:induction false} OccursAt(needle: string, hay: string)
    ensures Occurs(needle, hay) <==> exists i :: OccursAtIndex(needle, hay, i)
    decreases |hay|
  {
    if |needle| <= |hay| {
      if hay[..|needle|] == needle {
        assert OccursAtIndex(needle, hay, 0);
      } else {
        OccursAt(needle, hay[1..]);
        if Occurs(needle, hay[1..]) {
          var i :| OccursAtIndex(needle, hay[1..], i);
          assert hay[i + 1..i + 1 + |needle|] == hay[1..][i..i + |needle|];
          assert OccursAtIndex(needle, hay, i + 1);
        }
        if exists i :: OccursAtIndex(needle, hay, i) {
          var i :| OccursAtIndex(needle, hay, i);
          assert i != 0;
          assert hay[1..][i - 1..i - 1 + |needle|] == hay[i..i + |needle|];
          assert OccursAtIndex(needle, hay[1..], i - 1);
        }
      }
    }
  }

  /** The case-insensitive match the user search performs. */
  predicate ContainsIgnoringCase(hay: string, needle: string) {
    Occurs(Lower(needle), Lower(hay))
  }

  lemma EmptyOccursEverywhere(hay: string)
    ensures ContainsIgnoringCase(hay, "")
  {
    assert Lower("") == [];
    assert Lower(hay)[..0] == [];
  }

  // ---------------------------------------------------------------------------
  // split(" ") and its inverse join(" ")
  // ---------------------------------------------------------------------------

  /** `s.split(" ")`: the pieces between single spaces, empty pieces included. */
  function Split(s: string): (parts: seq<string>)
    ensures |parts| >= 1
    ensures forall i :: 0 <= i < |parts| ==> ' ' !in parts[i]
  {
    if |s| == 0 then [""]
    else
      var rest := Split(s[1..]);
      if s[0] == ' ' then [""] + rest else [[s[0]] + rest[0]] + rest[1..]
  }

  /** `parts.join(" ")`. */
  function Join(parts: seq<string>): (s: string)
    requires |parts| >= 1
  {
    if |parts| == 1 then parts[0] else parts[0] + " " + Join(parts[1..])
  }

  lemma {:induction false} JoinSplit(s: string)
    ensures Join(Split(s)) == s
  {
    if |s| > 0 {
      JoinSplit(s[1..]);
      var rest := Split(s[1..]);
      if s[0] == ' ' {
        assert ([""] + rest)[1..] == rest;
      } else {
        var parts := [[s[0]] + rest[0]] + rest[1..];
        if |rest| == 1 {
          assert Join(parts) == [s[0]] + rest[0];
        } else {
          assert parts[1..] == rest[1..];
          assert Join(rest) == rest[0] + " " + Join(rest[1..]);
        }
      }
    }
  }

  lemma {:induction false} SplitJoin(parts: seq<string>)
    requires |parts| >= 1
    requires forall i :: 0 <= i < |parts| ==> ' ' !in parts[i]
    ensures Split(Join(parts)) == parts
    decreases |parts|, |parts[0]|
  {
    if |parts| == 1 {
      SplitWord(parts[0]);
    } else if parts[0] == "" {
      SplitJoin(parts[1..]);
      var j := Join(parts);
      assert j == " " + Join(parts[1..]);
      assert j[1..] == Join(parts[1..]);
    } else {
      var p0 := parts[0];
      var tail := [p0[1..]] + parts[1..];
      assert tail[1..] == parts[1..];
      SplitJoin(tail);
      var j := Join(parts);
      assert j == [p0[0]] + Join(tail);
      assert j[1..] == Join(tail);
      assert j[0] == p0[0] && p0[0] != ' ';
      assert Split(j) == [[p0[0]] + tail[0]] + tail[1..];
      assert [p0[0]] + p0[1..] == p0;
    }
  }

  lemma {:induction false} SplitWord(w: string)
    requires ' ' !in w
    ensures Split(w) == [w]
  {
    if |w| > 0 {
      SplitWord(w[1..]);
      assert [w[0]] + w[1..] == w;
    }
  }
}
