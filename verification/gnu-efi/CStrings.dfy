/** Strings as C holds them: the characters before the terminator. */
module CStrings {
  type text = seq<char>

  /** What can be the contents of a C string. */
  predicate CString(s: text) {
    '\0' !in s
  }

  /** What a pointer `i` characters into a C string reads. */
  function At(s: text, i: nat): char {
    if i < |s| then s[i] else '\0'
  }

  function Concat(pieces: seq<text>): text {
    if pieces == [] then [] else pieces[0] + Concat(pieces[1..])
  }

  lemma {:induction false} ConcatLast(pieces: seq<text>, last: text)
    ensures Concat(pieces + [last]) == Concat(pieces) + last
  {
    if pieces == [] {
      assert [last][1..] == [] && [] + [last] == [last];
    } else {
      assert (pieces + [last])[1..] == pieces[1..] + [last];
      ConcatLast(pieces[1..], last);
    }
  }
}
