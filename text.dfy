/** Character and string helpers shared by the filters and validators:
    lower-casing, substring search and joining with a separator. */
module Text {

  /** Lower-case mapping of one character: ASCII A-Z, Cyrillic А-Я and Ё;
      every other character is left as it is. */
  function LowerChar(c: char): (r: char)
    ensures 'A' <= c <= 'Z' ==> r as int == c as int + 32
    ensures 'А' <= c <= 'Я' ==> r as int == c as int + 32
    ensures c == 'Ё' ==> r == 'ё'
    ensures !('A' <= c <= 'Z') && !('А' <= c <= 'Я') && c != 'Ё' ==> r == c
  {
    if 'A' <= c <= 'Z' then (c as int + 32) as char
    else if 'А' <= c <= 'Я' then (c as int + 32) as char
    else if c == 'Ё' then 'ё'
    else c
  }

  /** Python's str.lower(), applied character by character. */
  function Lower(s: string): (r: string)
    ensures |r| == |s|
    ensures forall i :: 0 <= i < |s| ==> r[i] == LowerChar(s[i])
  {
    if s == [] then [] else [LowerChar(s[0])] + Lower(s[1..])
  }

  /** Python's `needle in hay` on strings: needle occurs somewhere in hay. */
  predicate Contains(hay: string, needle: string)
    decreases |hay|
  {
    needle <= hay || (|hay| > 0 && Contains(hay[1..], needle))
  }

  /** Contains agrees with "needle is a prefix of some suffix of hay". */
  lemma {:induction false} ContainsIff(hay: string, needle: string)
    ensures Contains(hay, needle) <==> exists i :: 0 <= i <= |hay| && needle <= hay[i..]
    decreases |hay|
  {
    if needle <= hay {
      assert hay[0..] == hay;
    } else if |hay| == 0 {
      forall i | 0 <= i <= |hay| ensures !(needle <= hay[i..]) { assert hay[i..] == hay; }
    } else {
      ContainsIff(hay[1..], needle);
      if Contains(hay[1..], needle) {
        var j :| 0 <= j <= |hay[1..]| && needle <= hay[1..][j..];
        assert hay[1..][j..] == hay[j + 1..];
      } else {
        forall i | 0 <= i <= |hay| ensures !(needle <= hay[i..]) {
          if i > 0 { assert hay[i..] == hay[1..][i - 1..]; } else { assert hay[i..] == hay; }
        }
      }
    }
  }

  /** Python's sep.join(parts). */
  function Join(sep: string, parts: seq<string>): (r: string)
    ensures |parts| == 1 ==> r == parts[0]
    ensures parts == [] ==> r == []
    decreases |parts|
  {
    if parts == [] then ""
    else if |parts| == 1 then parts[0]
    else parts[0] + sep + Join(sep, parts[1..])
  }

  /** A join of parts whose first one is non-empty is non-empty and starts with it. */
  lemma {:induction false} JoinStartsWithFirst(sep: string, parts: seq<string>)
    requires |parts| > 0
    ensures parts[0] <= Join(sep, parts)
    ensures |Join(sep, parts)| >= |parts[0]|
  {
  }
}
