/** Strings that end with a NUL byte. */
module CStrings {
  type Byte = bv8

  /** What a C string holds: the bytes in front of its first NUL. */
  function Text(s: seq<Byte>): seq<Byte> {
    if s == [] || s[0] == 0 then [] else [s[0]] + Text(s[1..])
  }

  predicate Terminated(s: seq<Byte>) {
    0 in s
  }

  lemma {:induction false} TextBytes(s: seq<Byte>)
    requires Terminated(s)
    ensures |Text(s)| < |s| && s[|Text(s)|] == 0
    ensures forall i | 0 <= i < |Text(s)| :: s[i] != 0 && Text(s)[i] == s[i]
  {
    if s[0] != 0 {
      assert s == [s[0]] + s[1..];
      TextBytes(s[1..]);
    }
  }

  /** A copy made by `strdup` holds the same text. */
  lemma {:induction false} TextOfCopy(s: seq<Byte>)
    ensures Text(Text(s) + [0]) == Text(s)
  {
    if s != [] && s[0] != 0 {
      TextOfCopy(s[1..]);
      assert (Text(s) + [0])[1..] == Text(s[1..]) + [0];
    }
  }

  /** The text of a string that is stored from `at` on. */
  lemma {:induction false} TextAt(b: seq<Byte>, at: nat, e: seq<Byte>)
    requires at + |e| < |b| && b[at..at + |e|] == e && b[at + |e|] == 0 && 0 !in e
    ensures Text(b[at..]) == e
    decreases |e|
  {
    if e != [] {
      assert b[at] == e[0];
      assert b[at + 1..at + |e|] == e[1..];
      TextAt(b, at + 1, e[1..]);
      assert b[at..][1..] == b[at + 1..];
    }
  }
}
