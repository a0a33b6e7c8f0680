/** NUL-terminated strings. */
module CStrings {
  import opened Bytes

  /** A C string: the bytes up to the first NUL. */
  function CString(s: seq<Byte>): (c: seq<Byte>)
    ensures |c| <= |s| && c == s[..|c|]
    ensures |c| < |s| ==> s[|c|] == 0
    ensures forall i :: 0 <= i < |c| ==> c[i] != 0
  {
    if s == [] || s[0] == 0 then [] else [s[0]] + CString(s[1..])
  }

  lemma {:induction false} CStringConcat(s: seq<Byte>, t: seq<Byte>)
    requires forall i :: 0 <= i < |s| ==> s[i] != 0
    ensures CString(s + t) == s + CString(t)
  {
    if s == [] {
      assert s + t == t;
    } else {
      CStringConcat(s[1..], t);
      assert (s + t)[1..] == s[1..] + t;
    }
  }

  lemma {:induction false} CStringPrefix(s: seq<Byte>, t: seq<Byte>)
    ensures CString(s) <= CString(s + t)
  {
    if s != [] && s[0] != 0 {
      CStringPrefix(s[1..], t);
      assert (s + t)[1..] == s[1..] + t;
    }
  }

  lemma {:induction false} NoNul(s: seq<Byte>)
    requires forall i :: 0 <= i < |s| ==> s[i] != 0
    ensures CString(s) == s
  {
    CStringConcat(s, []);
    assert s + [] == s;
  }

  /** Nothing behind a terminator matters. */
  lemma {:induction false} Terminated(s: seq<Byte>, t: seq<Byte>)
    ensures CString(s + [0] + t) == CString(s)
  {
    if s == [] {
      assert (s + [0] + t)[0] == 0;
    } else {
      Terminated(s[1..], t);
      assert (s + [0] + t)[1..] == s[1..] + [0] + t;
    }
  }
}
