/** C string helpers shared by the other modules. A C string is modelled as the
    `string` of its characters before the terminating NUL. */
module CText {

  datatype Option<+T> = None | Some(value: T)

  /** `toupper` in the C locale. */
  function Upper(c: char): char {
    if 'a' <= c <= 'z' then (c as int - 32) as char else c
  }

  /** `tolower` in the C locale. */
  function Lower(c: char): char {
    if 'A' <= c <= 'Z' then (c as int + 32) as char else c
  }

  /** `isspace` in the C locale: blank and the control characters 9 to 13. */
  predicate IsSpace(c: char) {
    c == ' ' || 9 <= c as int <= 13
  }

  /** `make_uppercase`. */
  function UpperText(s: string): (r: string)
    ensures |r| == |s|
    ensures forall i :: 0 <= i < |s| ==> r[i] == Upper(s[i])
  {
    seq(|s|, i requires 0 <= i < |s| => Upper(s[i]))
  }

  /** `OPENSSL_strcasecmp(a, b) == 0`. */
  predicate EqNoCase(a: string, b: string) {
    |a| == |b| && forall i :: 0 <= i < |a| ==> Lower(a[i]) == Lower(b[i])
  }

  /** `OPENSSL_strlcpy` into a buffer of `size` bytes: what the buffer then holds. */
  function Strlcpy(src: string, size: nat): string
    requires size > 0
  {
    if |src| < size then src else src[..size - 1]
  }

  /** `OPENSSL_strlcat` onto `dst` in a buffer of `size` bytes. */
  function Strlcat(dst: string, src: string, size: nat): string {
    if |dst| >= size then dst else dst + Strlcpy(src, size - |dst|)
  }

  /** The position of the first `c`, or the length when there is none (`strchr`). */
  function IndexOf(s: string, c: char): (i: nat)
    ensures i <= |s|
    ensures c !in s[..i]
    ensures i < |s| ==> s[i] == c
  {
    if s == "" then 0
    else if s[0] == c then 0
    else
      var i := 1 + IndexOf(s[1..], c);
      assert s[..i] == [s[0]] + s[1..][..i - 1];
      i
  }

  /** IndexOf finds the place where a known prefix without `c` is followed by `c`. */
  lemma {:induction false} IndexOfAfter(p: string, c: char, rest: string)
    requires c !in p
    ensures IndexOf(p + [c] + rest, c) == |p|
  {
    if p != "" {
      assert (p + [c] + rest)[1..] == p[1..] + [c] + rest;
      IndexOfAfter(p[1..], c, rest);
    }
  }

  lemma IndexOfAbsent(p: string, c: char)
    requires c !in p
    ensures IndexOf(p, c) == |p|
  {
    var i := IndexOf(p, c);
  }
}
