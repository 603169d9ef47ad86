/** Shared vocabulary: optional values and results of operations that may be refused. */
module Prelude {

  datatype Option<+T> = None | Some(value: T)

  datatype Result<+T, +E> = Ok(value: T) | Err(error: E)

  newtype Byte = b: int | 0 <= b < 256

  type Bytes = seq<Byte>

  function Min(a: int, b: int): int {
    if a <= b then a else b
  }

  /** No element occurs at two positions. */
  predicate Distinct<T(==)>(s: seq<T>) {
    forall i, j :: 0 <= i < j < |s| ==> s[i] != s[j]
  }

  /** The elements of a sequence as a set. */
  function Elements<T>(s: seq<T>): set<T> {
    set x | x in s
  }

  lemma HasElements<T>(s: seq<T>)
    requires s != []
    ensures Elements(s) != {}
  {
    assert s[0] in Elements(s);
  }

  /** A duplicate-free sequence has as many elements as positions. */
  lemma {:induction false} DistinctCount<T>(s: seq<T>)
    requires Distinct(s)
    ensures |Elements(s)| == |s|
  {
    if s != [] {
      var rest, last := s[..|s| - 1], s[|s| - 1];
      assert s == rest + [last];
      assert last !in Elements(rest);
      DistinctCount(rest);
      assert Elements(s) == Elements(rest) + {last};
    }
  }

  /** A subset is no larger. */
  lemma {:induction false} SubsetCount<T>(a: set<T>, b: set<T>)
    requires a <= b
    ensures |a| <= |b|
  {
    assert b == a + (b - a);
  }

  /** Pieces of `s` between occurrences of `sep`; like `str.split`, never empty. */
  function Split(s: string, sep: char): (parts: seq<string>)
    ensures |parts| >= 1
  {
    if s == "" then [""]
    else
      var rest := Split(s[1..], sep);
      if s[0] == sep then [""] + rest else [[s[0]] + rest[0]] + rest[1..]
  }

  function JoinWith(parts: seq<string>, sep: char): string {
    if parts == [] then "" else if |parts| == 1 then parts[0] else parts[0] + [sep] + JoinWith(parts[1..], sep)
  }

  /** The pieces hold no separator and give the text back when they are joined. */
  lemma {:induction false} SplitGivesPieces(s: string, sep: char)
    ensures JoinWith(Split(s, sep), sep) == s
    ensures forall p :: p in Split(s, sep) ==> sep !in p
    decreases |s|
  {
    if s != "" {
      var rest := Split(s[1..], sep);
      SplitGivesPieces(s[1..], sep);
      if s[0] == sep {
        assert ([""] + rest)[1..] == rest;
        assert JoinWith([""] + rest, sep) == "" + [sep] + JoinWith(rest, sep);
      } else {
        var parts := [[s[0]] + rest[0]] + rest[1..];
        assert parts[1..] == rest[1..];
        assert JoinWith(parts, sep) == [s[0]] + JoinWith(rest, sep);
      }
    }
  }

  /** Text without the separator in front of a split text joins its first piece. */
  lemma {:induction false} SplitAfter(p: string, t: string, sep: char)
    requires sep !in p
    ensures Split(p + t, sep) == [p + Split(t, sep)[0]] + Split(t, sep)[1..]
    decreases |p|
  {
    var first, others := Split(t, sep)[0], Split(t, sep)[1..];
    if p == "" {
      assert p + t == t && p + first == first;
      assert [first] + others == Split(t, sep);
    } else {
      SplitAfter(p[1..], t, sep);
      assert (p + t)[1..] == p[1..] + t && (p + t)[0] == p[0];
      var rest := Split(p[1..] + t, sep);
      assert rest[0] == p[1..] + first && rest[1..] == others;
      assert [p[0]] + (p[1..] + first) == p + first;
    }
  }

  lemma {:induction false} SplitOfJoined(parts: seq<string>, sep: char)
    requires parts != [] && forall p :: p in parts ==> sep !in p
    ensures Split(JoinWith(parts, sep), sep) == parts
  {
    if |parts| == 1 {
      SplitAfter(parts[0], "", sep);
      assert parts[0] + "" == parts[0];
    } else {
      var rest := JoinWith(parts[1..], sep);
      SplitOfJoined(parts[1..], sep);
      SplitAfter(parts[0], [sep] + rest, sep);
      assert ([sep] + rest)[1..] == rest;
      assert Split([sep] + rest, sep) == [""] + parts[1..];
      assert parts[0] + ([sep] + rest) == parts[0] + [sep] + rest;
      assert parts[0] + "" == parts[0];
    }
  }

  /** Lower-case hexadecimal text whose length lies in `lo..hi`. */
  predicate IsHex(s: string, lo: nat, hi: nat) {
    && lo <= |s| <= hi
    && forall i :: 0 <= i < |s| ==> '0' <= s[i] <= '9' || 'a' <= s[i] <= 'f'
  }
}
