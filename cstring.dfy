/**
 * The two C library string routines the queue relies on, over characters.
 * A C string is read up to (not including) its first NUL.
 */
module CString {

  /** strlen: how many characters come before the first NUL. */
  function Strlen(s: string): (n: nat)
    ensures n <= |s|
    ensures forall i :: 0 <= i < n ==> s[i] != '\0'
    ensures n < |s| ==> s[n] == '\0'
  {
    if s == [] || s[0] == '\0' then 0 else 1 + Strlen(s[1..])
  }

  /** n NUL characters. */
  function Nuls(n: nat): (r: seq<char>)
  {
    seq(n, _ => '\0')
  }

  /**
   * strncpy(dst, src, n): the n characters written to dst. Characters are
   * copied one at a time until src's terminator is met; from there on the
   * rest of the n positions are filled with NUL.
   */
  function StrNCpy(src: string, n: nat): (r: string)
    ensures |r| == n
    decreases n
  {
    if n == 0 then []
    else if src == [] || src[0] == '\0' then ['\0'] + StrNCpy(src, n - 1)
    else [src[0]] + StrNCpy(src[1..], n - 1)
  }

  /** When src's string has at least n characters, strncpy writes its first n. */
  lemma {:induction false} StrNCpyPrefix(src: string, n: nat)
    requires n <= Strlen(src)
    ensures StrNCpy(src, n) == src[..n]
    decreases n
  {
    if n > 0 {
      StrNCpyPrefix(src[1..], n - 1);
      assert src[..n] == [src[0]] + src[1..][..n - 1];
    }
  }

  /** When it is shorter, strncpy writes the whole string and then NULs up to n. */
  lemma {:induction false} StrNCpyPads(src: string, n: nat)
    requires Strlen(src) < n
    ensures StrNCpy(src, n) == src[..Strlen(src)] + Nuls(n - Strlen(src))
    decreases n
  {
    if src == [] || src[0] == '\0' {
      if n > 1 {
        StrNCpyPads(src, n - 1);
      }
      assert StrNCpy(src, n) == ['\0'] + StrNCpy(src, n - 1);
      assert Nuls(n) == ['\0'] + Nuls(n - 1);
    } else {
      StrNCpyPads(src[1..], n - 1);
      assert src[..Strlen(src)] == [src[0]] + src[1..][..Strlen(src[1..])];
    }
  }

  /** A string with no NUL in it followed by a NUL: strlen finds exactly the string. */
  lemma StrlenTerminated(x: string, y: string)
    requires forall i :: 0 <= i < |x| ==> x[i] != '\0'
    requires y != [] && y[0] == '\0'
    ensures Strlen(x + y) == |x|
  {
    assert (x + y)[|x|] == y[0];
  }

  /**
   * What a caller reads back, as a C string, from the buffer of `bufsize`
   * characters that q_remove_head/q_remove_tail fill from a value holding
   * the stored text of s: that text, cut to the bufsize - 1 characters that fit.
   */
  lemma ReadBack(s: string, bufsize: nat)
    requires bufsize > 0
    ensures var t := s[..Strlen(s)];
            var out := StrNCpy(t, bufsize - 1) + ['\0'];
            out[..Strlen(out)] == if |t| < bufsize then t else t[..bufsize - 1]
  {
    var t := s[..Strlen(s)];
    var out := StrNCpy(t, bufsize - 1) + ['\0'];
    if |t| < bufsize - 1 {
      var pad := Nuls(bufsize - 1 - |t|) + ['\0'];
      StrNCpyPads(t, bufsize - 1);
      assert out == t + pad;
      StrlenTerminated(t, pad);
      assert out[..|t|] == t;
    } else if |t| == bufsize - 1 {
      StrNCpyPrefix(t, bufsize - 1);
      assert out == t + ['\0'];
      StrlenTerminated(t, ['\0']);
      assert out[..|t|] == t;
    } else {
      var u := t[..bufsize - 1];
      StrNCpyPrefix(t, bufsize - 1);
      assert out == u + ['\0'];
      StrlenTerminated(u, ['\0']);
      assert out[..|u|] == u;
    }
  }
}
