/** Small shared vocabulary: optional values, bytes, the fixed widths of the
    host the bookstore runs on (int 4 bytes, size_t 8 bytes, little-endian),
    and the substring test that std::string::find performs. */
module Common {

  datatype Option<T> = None | Some(value: T)

  newtype byte = x: int | 0 <= x < 256

  const INT32_MIN: int := -0x8000_0000
  const INT32_MAX: int := 0x7fff_ffff
  const INT64_MIN: int := -0x8000_0000_0000_0000
  const INT64_MAX: int := 0x7fff_ffff_ffff_ffff

  /** A value a C++ `int` can hold. */
  predicate IsInt32(x: int) { INT32_MIN <= x <= INT32_MAX }

  /** A value a 64-bit signed integer can hold. */
  predicate IsInt64(x: int) { INT64_MIN <= x <= INT64_MAX }

  /** A std::string holds bytes: every character is a byte value. */
  predicate Narrow(s: string) { forall i :: 0 <= i < |s| ==> s[i] as int < 256 }

  /** `s.find(q) != std::string::npos`: `q` occurs in `s` at some offset. */
  predicate Contains(s: string, q: string) {
    exists i | 0 <= i <= |s| - |q| :: OccursAt(s, q, i)
  }

  predicate OccursAt(s: string, q: string, i: int) {
    0 <= i <= |s| - |q| && s[i..i + |q|] == q
  }

  /** The empty query occurs in every string (find("") returns 0). */
  lemma ContainsEmpty(s: string)
    ensures Contains(s, "")
  {
    assert OccursAt(s, "", 0);
  }

  /** A string always contains itself, and never a longer string. */
  lemma ContainsSelfAndLonger(s: string, q: string)
    ensures Contains(s, s)
    ensures |q| > |s| ==> !Contains(s, q)
  {
    assert OccursAt(s, s, 0);
  }

  /** Index of the first occurrence of `c` in `s`, or |s| when there is none. */
  function FirstIndexOf(s: string, c: char): (k: nat)
    ensures k <= |s|
    ensures forall j :: 0 <= j < k ==> s[j] != c
    ensures k < |s| ==> s[k] == c
  {
    if s == [] then 0
    else if s[0] == c then 0
    else 1 + FirstIndexOf(s[1..], c)
  }

  lemma FirstIndexOfAbsent(s: string, c: char)
    requires c !in s
    ensures FirstIndexOf(s, c) == |s|
  {
  }

  lemma {:induction false} FirstIndexOfSplit(f: string, c: char, rest: string)
    requires c !in f
    ensures FirstIndexOf(f + [c] + rest, c) == |f|
  {
    if f != [] {
      assert (f + [c] + rest)[1..] == f[1..] + [c] + rest;
      FirstIndexOfSplit(f[1..], c, rest);
    } else {
      assert (f + [c] + rest)[0] == c;
    }
  }
}
