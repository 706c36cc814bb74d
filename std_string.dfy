/** The few std::string operations the DNS name splitter relies on, over
    `seq<char>`. A search that finds nothing returns `None`, which stands for
    `std::string::npos`. */
module StdString {

  datatype Option<+T> = None | Some(value: T)

  /** The width of `size_t` on the platforms the splitter targets. */
  const SizeModulus: int := 0x1_0000_0000_0000_0000

  /** Unsigned `size_t` subtraction: wraps around instead of going negative. */
  function SizeSub(a: nat, b: nat): (r: nat)
    ensures r < SizeModulus
    ensures b <= a < SizeModulus ==> r == a - b
    ensures a < b <= a + SizeModulus ==> r == SizeModulus - (b - a)
  {
    (a - b) % SizeModulus
  }

  /** `pat` occurs in `s` starting at index `i`. */
  predicate OccursAt(s: string, pat: string, i: int)
  {
    0 <= i && i + |pat| <= |s| && s[i..i + |pat|] == pat
  }

  /** The last start index below `n` at which `pat` occurs. */
  function RFindBelow(s: string, pat: string, n: nat): (r: Option<nat>)
    ensures r.Some? ==> r.value < n && OccursAt(s, pat, r.value)
    ensures r.Some? ==> forall j :: r.value < j < n ==> !OccursAt(s, pat, j)
    ensures r.None? ==> forall j :: 0 <= j < n ==> !OccursAt(s, pat, j)
  {
    if n == 0 then None
    else if OccursAt(s, pat, n - 1) then Some(n - 1)
    else RFindBelow(s, pat, n - 1)
  }

  /** `s.rfind(pat)`: the start of the last occurrence of `pat` in `s`. */
  function RFind(s: string, pat: string): (r: Option<nat>)
    ensures r.Some? ==> OccursAt(s, pat, r.value)
    ensures r.Some? ==> forall j :: r.value < j ==> !OccursAt(s, pat, j)
    ensures r.None? ==> forall j :: !OccursAt(s, pat, j)
  {
    RFindBelow(s, pat, |s| + 1)
  }

  /** `s.find_first_of(c, from)`: the first index at or after `from` holding `c`. */
  function FindFirstOf(s: string, c: char, from: nat): (r: Option<nat>)
    ensures r.Some? ==> from <= r.value < |s| && s[r.value] == c
    ensures r.Some? ==> forall j :: from <= j < r.value ==> s[j] != c
    ensures r.None? ==> forall j :: from <= j < |s| ==> s[j] != c
    decreases |s| - from
  {
    if from >= |s| then None
    else if s[from] == c then Some(from)
    else FindFirstOf(s, c, from + 1)
  }

  /** The last index below `n` holding `c`. */
  function FindLastBelow(s: string, c: char, n: nat): (r: Option<nat>)
    requires n <= |s|
    ensures r.Some? ==> r.value < n && s[r.value] == c
    ensures r.Some? ==> forall j :: r.value < j < n ==> s[j] != c
    ensures r.None? ==> forall j :: 0 <= j < n ==> s[j] != c
  {
    if n == 0 then None
    else if s[n - 1] == c then Some(n - 1)
    else FindLastBelow(s, c, n - 1)
  }

  /** `s.find_last_of(c, upTo)`: the last index at or before `upTo` holding `c`
      (the whole string is searched when `upTo` is past its end). */
  function FindLastOf(s: string, c: char, upTo: nat): (r: Option<nat>)
    ensures r.Some? ==> r.value <= upTo && r.value < |s| && s[r.value] == c
    ensures r.Some? ==> forall j :: r.value < j <= upTo && j < |s| ==> s[j] != c
    ensures r.None? ==> forall j :: 0 <= j <= upTo && j < |s| ==> s[j] != c
  {
    FindLastBelow(s, c, if upTo < |s| then upTo + 1 else |s|)
  }

  /** `s.substr(pos, count)`: at most `count` characters from `pos`; the copy
      stops at the end of the string. (`pos` past the end throws in C++, which
      the splitter never does.) */
  function Substr(s: string, pos: nat, count: nat): (r: string)
    requires pos <= |s|
    ensures pos + count <= |s| ==> r == s[pos..pos + count]
    ensures |s| <= pos + count ==> r == s[pos..]
  {
    if pos + count <= |s| then s[pos..pos + count] else s[pos..]
  }

  /** `std::count(s.begin(), s.end(), c)`. */
  function CountOf(s: string, c: char): nat
  {
    if s == [] then 0 else (if s[0] == c then 1 else 0) + CountOf(s[1..], c)
  }

  /** The pieces joined with `sep` between consecutive ones. */
  function Join(pieces: seq<string>, sep: string): string
  {
    if |pieces| == 0 then ""
    else if |pieces| == 1 then pieces[0]
    else pieces[0] + sep + Join(pieces[1..], sep)
  }

  lemma {:induction false} CountOfAppend(a: string, b: string, c: char)
    ensures CountOf(a + b, c) == CountOf(a, c) + CountOf(b, c)
  {
    if a == [] {
      assert a + b == b;
    } else {
      assert (a + b)[1..] == a[1..] + b;
      CountOfAppend(a[1..], b, c);
    }
  }

  /** A character at `c` is counted once, between the text before and after it. */
  lemma CountAt(s: string, i: nat, c: char)
    requires i < |s| && s[i] == c
    ensures CountOf(s, c) == CountOf(s[..i], c) + 1 + CountOf(s[i + 1..], c)
  {
    assert s == s[..i] + ([c] + s[i + 1..]);
    CountOfAppend(s[..i], [c] + s[i + 1..], c);
    assert ([c] + s[i + 1..])[1..] == s[i + 1..];
  }

  lemma {:induction false} CountOfAbsent(s: string, c: char)
    requires forall j :: 0 <= j < |s| ==> s[j] != c
    ensures CountOf(s, c) == 0
  {
    if s != [] {
      CountOfAbsent(s[1..], c);
    }
  }
}
