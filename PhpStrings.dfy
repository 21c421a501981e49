/** The PHP string built-ins the packer relies on, over text whose
    case mapping is ASCII only. */
module PhpStrings {
  import opened Wrappers

  /** `strtolower` on one character: only 'A'..'Z' change. */
  function LowerChar(c: char): char {
    if 'A' <= c <= 'Z' then (c as int + 32) as char else c
  }

  /** `strtolower`. */
  function ToLower(s: string): string {
    if s == [] then [] else [LowerChar(s[0])] + ToLower(s[1..])
  }

  /** `rtrim($s, $c)`. */
  function RTrim(s: string, c: char): string {
    if s != [] && s[|s| - 1] == c then RTrim(s[..|s| - 1], c) else s
  }

  /** `rtrim` keeps the longest prefix of `s` that does not end in `c`: the
      stripped tail is made of `c` only. */
  lemma {:induction false} RTrimSpec(s: string, c: char)
    ensures |RTrim(s, c)| <= |s| && RTrim(s, c) == s[..|RTrim(s, c)|]
    ensures RTrim(s, c) == [] || RTrim(s, c)[|RTrim(s, c)| - 1] != c
    ensures forall i :: |RTrim(s, c)| <= i < |s| ==> s[i] == c
  {
    if s != [] && s[|s| - 1] == c {
      RTrimSpec(s[..|s| - 1], c);
    }
  }

  /** `ltrim($s, $c)`. */
  function LTrim(s: string, c: char): string {
    if s != [] && s[0] == c then LTrim(s[1..], c) else s
  }

  /** `ltrim` keeps the longest suffix of `s` that does not start with `c`:
      the stripped head is made of `c` only. */
  lemma {:induction false} LTrimSpec(s: string, c: char)
    ensures |LTrim(s, c)| <= |s| && LTrim(s, c) == s[|s| - |LTrim(s, c)|..]
    ensures LTrim(s, c) == [] || LTrim(s, c)[0] != c
    ensures forall i :: 0 <= i < |s| - |LTrim(s, c)| ==> s[i] == c
  {
    if s != [] && s[0] == c {
      var rest := s[1..];
      LTrimSpec(rest, c);
      var r := LTrim(rest, c);
      assert rest[|rest| - |r|..] == s[|s| - |r|..];
      forall i | 0 <= i < |s| - |r|
        ensures s[i] == c
      {
        if i > 0 {
          assert s[i] == rest[i - 1];
        }
      }
    }
  }

  /** `trim($s, $c)`: both ends. */
  function Trim(s: string, c: char): string {
    RTrim(LTrim(s, c), c)
  }

  /** `rtrim` removes nothing more the second time. */
  lemma RTrimIdempotent(s: string, c: char)
    ensures RTrim(RTrim(s, c), c) == RTrim(s, c)
  {
  }

  /** A string wrapped in one leading `c`, and neither starting nor ending
      with `c` itself, trims back to itself. */
  lemma TrimOneLeading(c: char, s: string)
    requires s != [] && s[0] != c && s[|s| - 1] != c
    ensures Trim([c] + s, c) == s
  {
    assert ([c] + s)[1..] == s;
    assert LTrim([c] + s, c) == s;
  }

  /** `substr($s, $start)` for a non-negative start: the empty string once
      the start lies past the end. */
  function Substr(s: string, start: nat): (r: string)
    ensures start <= |s| ==> s == s[..start] + r
    ensures start >= |s| ==> r == ""
  {
    if start <= |s| then s[start..] else ""
  }

  /** `substr` from the end of a prefix gives back the separator and what follows it. */
  lemma SubstrAfter(a: string, sep: char, b: string)
    ensures Substr(a + [sep] + b, |a|) == [sep] + b
  {
  }

  /** `explode($sep, $s)` for a one-character separator. */
  function Explode(sep: char, s: string): (parts: seq<string>)
    ensures |parts| >= 1
  {
    if s == [] then [""]
    else
      var rest := Explode(sep, s[1..]);
      if s[0] == sep then [""] + rest
      else [[s[0]] + rest[0]] + rest[1..]
  }

  /** The pieces of a split hold no separator, and there is always at least
      one of them (`explode('/', '')` is `['']`). */
  lemma {:induction false} ExplodeSpec(sep: char, s: string)
    ensures |Explode(sep, s)| >= 1
    ensures forall i :: 0 <= i < |Explode(sep, s)| ==> sep !in Explode(sep, s)[i]
  {
    if s != [] {
      ExplodeSpec(sep, s[1..]);
    }
  }

  /** `implode($sep, $parts)`. */
  function Implode(sep: char, parts: seq<string>): string
  {
    if |parts| == 0 then ""
    else if |parts| == 1 then parts[0]
    else parts[0] + [sep] + Implode(sep, parts[1..])
  }

  /** A separator-free text glued in front of `s` only lengthens the first piece. */
  lemma {:induction false} ExplodeSeparatorFreePrefix(sep: char, a: string, s: string)
    requires sep !in a
    ensures Explode(sep, a + s) == [a + Explode(sep, s)[0]] + Explode(sep, s)[1..]
  {
    var e := Explode(sep, s);
    if a == [] {
      assert a + s == s && a + e[0] == e[0];
      assert [e[0]] + e[1..] == e;
    } else {
      assert (a + s)[0] == a[0] && (a + s)[1..] == a[1..] + s;
      ExplodeSeparatorFreePrefix(sep, a[1..], s);
      var rest := Explode(sep, (a + s)[1..]);
      assert rest == [a[1..] + e[0]] + e[1..];
      assert [a[0]] + (a[1..] + e[0]) == a + e[0];
    }
  }

  /** Splitting what was joined gives back the pieces, provided none of them
      holds the separator. */
  lemma {:induction false} ExplodeImplode(sep: char, parts: seq<string>)
    requires |parts| >= 1
    requires forall i :: 0 <= i < |parts| ==> sep !in parts[i]
    ensures Explode(sep, Implode(sep, parts)) == parts
  {
    if |parts| == 1 {
      ExplodeSeparatorFreePrefix(sep, parts[0], "");
      assert parts[0] + "" == parts[0];
    } else {
      var tail := Implode(sep, parts[1..]);
      ExplodeImplode(sep, parts[1..]);
      assert parts[0] + [sep] + tail == parts[0] + ([sep] + tail);
      ExplodeSeparatorFreePrefix(sep, parts[0], [sep] + tail);
      assert ([sep] + tail)[1..] == tail;
      assert Explode(sep, [sep] + tail) == [""] + parts[1..];
      assert Implode(sep, parts) == parts[0] + ([sep] + tail);
      assert parts[0] + "" == parts[0];
      assert [parts[0]] + parts[1..] == parts;
    }
  }

  /** Joining the pieces of a split gives back the text. */
  lemma {:induction false} ImplodeExplode(sep: char, s: string)
    ensures Implode(sep, Explode(sep, s)) == s
  {
    if s != [] {
      var rest := Explode(sep, s[1..]);
      ImplodeExplode(sep, s[1..]);
      if s[0] == sep {
        assert ([""] + rest)[1..] == rest;
      } else if |rest| > 1 {
        var parts := [[s[0]] + rest[0]] + rest[1..];
        assert parts[1..] == rest[1..];
        assert Implode(sep, rest) == rest[0] + [sep] + Implode(sep, rest[1..]);
      }
    }
  }

  /** Appending a piece appends the separator and the piece. */
  lemma {:induction false} ImplodeAppend(sep: char, parts: seq<string>, last: string)
    requires |parts| >= 1
    ensures Implode(sep, parts + [last]) == Implode(sep, parts) + [sep] + last
  {
    if |parts| > 1 {
      assert (parts + [last])[1..] == parts[1..] + [last];
      ImplodeAppend(sep, parts[1..], last);
    }
  }

  /** Joined non-empty pieces start with the first piece's first character
      and end with the last piece's last character. */
  lemma {:induction false} ImplodeEnds(sep: char, parts: seq<string>)
    requires |parts| >= 1 && forall i :: 0 <= i < |parts| ==> parts[i] != []
    ensures Implode(sep, parts) != []
    ensures Implode(sep, parts)[0] == parts[0][0]
    ensures Implode(sep, parts)[|Implode(sep, parts)| - 1] == parts[|parts| - 1][|parts[|parts| - 1]| - 1]
  {
    if |parts| > 1 {
      ImplodeEnds(sep, parts[1..]);
    }
  }

  /** The case-insensitive occurrence of `needle` at position `i` of `haystack`. */
  predicate MatchesAtCI(haystack: string, needle: string, i: nat) {
    i + |needle| <= |haystack| && ToLower(haystack[i..i + |needle|]) == ToLower(needle)
  }

  /** The first case-insensitive occurrence of `needle` at or after `from`. */
  function FindCI(haystack: string, needle: string, from: nat): (pos: Option<nat>)
    decreases |haystack| - from
    ensures pos.Some? ==> from <= pos.value && MatchesAtCI(haystack, needle, pos.value)
    ensures pos.Some? ==> forall i :: from <= i < pos.value ==> !MatchesAtCI(haystack, needle, i)
    ensures pos.None? ==> forall i :: from <= i ==> !MatchesAtCI(haystack, needle, i)
  {
    if from + |needle| > |haystack| then None
    else if MatchesAtCI(haystack, needle, from) then Some(from)
    else FindCI(haystack, needle, from + 1)
  }

  /** `stripos($haystack, $needle)`: the position of the first
      case-insensitive occurrence, `None` standing for PHP's `false`. */
  function Stripos(haystack: string, needle: string): (pos: Option<nat>)
    ensures pos.Some? ==> MatchesAtCI(haystack, needle, pos.value)
    ensures pos.Some? ==> forall i :: 0 <= i < pos.value ==> !MatchesAtCI(haystack, needle, i)
    ensures pos.None? ==> forall i :: 0 <= i ==> !MatchesAtCI(haystack, needle, i)
  {
    FindCI(haystack, needle, 0)
  }

  /** `s` starts with the lower-case text `prefix`, ignoring the case of `s`. */
  predicate HasPrefixCI(s: string, prefix: string) {
    |prefix| <= |s| && ToLower(s[..|prefix|]) == prefix
  }

  /** `stripos($s, $prefix) === 0` is exactly a case-insensitive prefix test. */
  lemma StriposAtStart(s: string, prefix: string)
    requires ToLower(prefix) == prefix
    ensures Stripos(s, prefix) == Some(0) <==> HasPrefixCI(s, prefix)
  {
  }
}
