/**
 * The Playfair cipher of playfair_cipher.py: the 5x5 key square, the
 * preparation of plaintext into digraphs, and encryption and decryption by
 * the row, column and rectangle rules.
 *
 * Each loop of the source is a method proved equal to a pure specification
 * function; the properties the cipher promises are lemmas about those
 * functions.  Characters are modelled on ASCII: `Upper` and `IsAlpha` are
 * Python's `str.upper` and `str.isalpha` restricted to ASCII.
 */
module Playfair {

  /** The i-th letter of the key-square alphabet: A to Z without J. */
  function AlphabetLetter(i: int): char
    requires 0 <= i < 25
  {
    var code := if i < 9 then 'A' as int + i else 'A' as int + i + 1;
    code as char
  }

  /** The alphabet of the key square; I and J share a cell. */
  function Alphabet(): string {
    seq(25, i requires 0 <= i < 25 => AlphabetLetter(i))
  }

  /** The constant is the source's literal alphabet. */
  lemma AlphabetSpelled()
    ensures Alphabet() == "ABCDEFGHIKLMNOPQRSTUVWXYZ"
  {
  }

  /** A key square as the source stores it: a list of rows. */
  type Square = seq<seq<char>>

  predicate IsSquare(m: Square) {
    |m| == 5 && forall i :: 0 <= i < 5 ==> |m[i]| == 5
  }

  predicate Distinct(s: string) {
    forall i, j :: 0 <= i < j < |s| ==> s[i] != s[j]
  }

  /** `s` holds each letter of the alphabet exactly once. */
  predicate IsAlphabetPermutation(s: string) {
    |s| == 25 && Distinct(s) && forall c :: c in s <==> c in Alphabet()
  }

  lemma AlphabetMembership(c: char)
    ensures c in Alphabet() <==> 'A' <= c <= 'Z' && c != 'J'
  {
    if 'A' <= c <= 'Z' && c != 'J' {
      var k := if c < 'J' then c as int - 'A' as int else c as int - 'A' as int - 1;
      assert Alphabet()[k] == c;
    }
    if c in Alphabet() {
      var k :| 0 <= k < 25 && Alphabet()[k] == c;
      assert c == AlphabetLetter(k);
    }
  }

  lemma AlphabetDistinct()
    ensures Distinct(Alphabet())
  {
  }

  // ---------------------------------------------------------------------
  // Character normalisation
  // ---------------------------------------------------------------------

  /** Python's `str.upper` on one character, for ASCII. */
  function Upper(c: char): char {
    if 'a' <= c <= 'z' then (c as int - 32) as char else c
  }

  /** Python's `str.isalpha`, for ASCII. */
  predicate IsAlpha(c: char) {
    'a' <= c <= 'z' || 'A' <= c <= 'Z'
  }

  /** J is written as I. */
  function MergeJ(c: char): char {
    if c == 'J' then 'I' else c
  }

  /**
   * The key after upper-casing, removing spaces and replacing J by I
   * (prepare_key's first two statements).
   */
  function NormalizeKey(key: string): (r: string)
    ensures |r| <= |key|
    ensures ' ' !in r && 'J' !in r
  {
    if key == [] then []
    else
      var c := Upper(key[|key| - 1]);
      NormalizeKey(key[..|key| - 1]) + (if c == ' ' then [] else [MergeJ(c)])
  }

  // ---------------------------------------------------------------------
  // The key square (prepare_key)
  // ---------------------------------------------------------------------

  /**
   * The list `acc` after the loop `for char in s: if char in alphabet and
   * char not in key_matrix: key_matrix.append(char)`.
   */
  function Absorb(acc: string, s: string): (r: string)
    decreases |s|
    ensures |acc| <= |r| && r[..|acc|] == acc
    ensures Distinct(acc) ==> Distinct(r)
    ensures forall c :: c in r ==> c in acc || (c in s && c in Alphabet())
    ensures forall c :: c in s && c in Alphabet() ==> c in r
  {
    if s == [] then acc
    else
      var prev := Absorb(acc, s[..|s| - 1]);
      var c := s[|s| - 1];
      assert forall d :: d in s ==> d in s[..|s| - 1] || d == c;
      if c in Alphabet() && c !in prev then prev + [c] else prev
  }

  /** The letters a key contributes, in order of first occurrence. */
  function KeyLetters(key: string): string {
    Absorb([], NormalizeKey(key))
  }

  /** The letters of the key square in row-major order. */
  function SquareLetters(key: string): (f: string)
    ensures |f| == 25
  {
    AbsorbAlphabet(KeyLetters(key));
    Absorb(KeyLetters(key), Alphabet())
  }

  /** The letters of `s` that are not in `k`, in the order of `s`. */
  function Unused(s: string, k: string): (r: string)
    ensures forall c :: c in r <==> c in s && c !in k
  {
    if s == [] then []
    else
      assert forall d :: d in s ==> d in s[..|s| - 1] || d == s[|s| - 1];
      Unused(s[..|s| - 1], k) + (if s[|s| - 1] in k then [] else [s[|s| - 1]])
  }

  /** The key square: `SquareLetters` cut into five rows of five. */
  function KeySquare(key: string): (m: Square)
    ensures IsSquare(m)
  {
    var f := SquareLetters(key);
    seq(5, i requires 0 <= i < 5 => f[5 * i..5 * i + 5])
  }

  lemma {:induction false} DistinctCard(s: string)
    requires Distinct(s)
    ensures |set c | c in s| == |s|
  {
    if s != [] {
      var t := s[..|s| - 1];
      assert Distinct(t);
      DistinctCard(t);
      assert (set c | c in s) == (set c | c in t) + {s[|s| - 1]};
      assert s[|s| - 1] !in t;
    }
  }

  /** Two sequences without repetitions and with the same members have the same length. */
  lemma SameMembersSameLength(s: string, t: string)
    requires Distinct(s) && Distinct(t) && forall c :: c in s <==> c in t
    ensures |s| == |t|
  {
    DistinctCard(s);
    DistinctCard(t);
    assert (set c | c in s) == (set c | c in t);
  }

  /** Absorbing the whole alphabet into a distinct prefix of it yields a permutation. */
  lemma AbsorbAlphabet(k: string)
    requires Distinct(k) && forall c :: c in k ==> c in Alphabet()
    ensures IsAlphabetPermutation(Absorb(k, Alphabet()))
  {
    var f := Absorb(k, Alphabet());
    AlphabetDistinct();
    SameMembersSameLength(f, Alphabet());
  }

  /** Absorbing a distinct sequence appends exactly its unused letters. */
  lemma {:induction false} AbsorbDistinct(k: string, s: string)
    requires Distinct(s) && forall c :: c in s ==> c in Alphabet()
    ensures Absorb(k, s) == k + Unused(s, k)
  {
    if s != [] {
      var t := s[..|s| - 1];
      var c := s[|s| - 1];
      assert Distinct(t);
      AbsorbDistinct(k, t);
      assert c !in t;
    }
  }

  /** The first index of `c` in `s`. */
  function IndexOf(s: string, c: char): (k: nat)
    requires c in s
    ensures k < |s| && s[k] == c && c !in s[..k]
  {
    if s[0] == c then 0
    else
      assert c in s[1..];
      1 + IndexOf(s[1..], c)
  }

  lemma {:induction false} IndexOfPrefix(s: string, c: char, d: char)
    requires c in s
    ensures IndexOf(s + [d], c) == IndexOf(s, c)
  {
    if s[0] != c {
      assert (s + [d])[1..] == s[1..] + [d];
      IndexOfPrefix(s[1..], c, d);
    }
  }

  lemma IndexOfLast(s: string, c: char)
    requires c !in s
    ensures IndexOf(s + [c], c) == |s|
  {
    var k := IndexOf(s + [c], c);
    assert (s + [c])[..|s|] == s;
  }

  /** The letters `Absorb([], s)` keeps stand in the order of their first occurrence in `s`. */
  lemma {:induction false} AbsorbOrder(s: string)
    ensures forall x :: x in Absorb([], s) ==> x in s
    ensures forall i, j :: 0 <= i < j < |Absorb([], s)| ==>
              IndexOf(s, Absorb([], s)[i]) < IndexOf(s, Absorb([], s)[j])
  {
    if s != [] {
      var t, c := s[..|s| - 1], s[|s| - 1];
      assert s == t + [c];
      AbsorbOrder(t);
      var kt := Absorb([], t);
      var k := Absorb([], s);
      forall x | x in kt ensures IndexOf(s, x) == IndexOf(t, x) {
        IndexOfPrefix(t, x, c);
      }
      if k != kt {
        assert k == kt + [c];
        assert c !in t;
        IndexOfLast(t, c);
        forall i, j | 0 <= i < j < |k|
          ensures IndexOf(s, k[i]) < IndexOf(s, k[j])
        {
          assert k[i] == kt[i] && k[i] in kt;
          if j < |kt| {
            assert k[j] == kt[j] && k[j] in kt;
          }
        }
      }
    }
  }

  /** No letter occupies two cells. */
  predicate CellsDistinct(m: Square)
    requires IsSquare(m)
  {
    forall i, j, i', j' ::
      (0 <= i < 5 && 0 <= j < 5 && 0 <= i' < 5 && 0 <= j' < 5 && m[i][j] == m[i'][j']) ==> i == i' && j == j'
  }

  /** Every letter of the alphabet occupies a cell. */
  predicate CoversAlphabet(m: Square)
    requires IsSquare(m)
  {
    forall c :: c in Alphabet() ==> Locate(m, c) != (-1, -1)
  }

  lemma KeySquareCells(key: string, i: int, j: int)
    requires 0 <= i < 5 && 0 <= j < 5
    ensures KeySquare(key)[i][j] == SquareLetters(key)[5 * i + j]
  {
  }

  /**
   * prepare_key returns five rows of five letters holding every letter of
   * the alphabet exactly once, whatever the key.
   */
  lemma KeySquareIsPermutation(key: string)
    ensures IsSquare(KeySquare(key))
    ensures IsAlphabetPermutation(SquareLetters(key))
    ensures CellsDistinct(KeySquare(key))
    ensures CoversAlphabet(KeySquare(key))
  {
    var m, f := KeySquare(key), SquareLetters(key);
    AbsorbAlphabet(KeyLetters(key));
    forall i, j, i', j' | 0 <= i < 5 && 0 <= j < 5 && 0 <= i' < 5 && 0 <= j' < 5 && m[i][j] == m[i'][j']
      ensures i == i' && j == j'
    {
      KeySquareCells(key, i, j);
      KeySquareCells(key, i', j');
      assert 5 * i + j == 5 * i' + j';
    }
    forall c | c in Alphabet() ensures Locate(m, c) != (-1, -1) {
      var k := IndexOf(f, c);
      KeySquareCells(key, k / 5, k % 5);
      assert m[k / 5][k % 5] == c;
      LocateSpec(m, c);
    }
  }

  /**
   * In the square the key's letters come first, in order of first
   * occurrence in the normalised key, followed by the rest of the alphabet
   * in alphabetical order; a letter belongs to the key part exactly when
   * the normalised key contains it.
   */
  lemma KeyLettersFirst(key: string)
    ensures SquareLetters(key) == KeyLetters(key) + Unused(Alphabet(), KeyLetters(key))
    ensures forall c :: c in KeyLetters(key) <==> c in NormalizeKey(key) && c in Alphabet()
    ensures forall i, j :: 0 <= i < j < |KeyLetters(key)| ==>
              IndexOf(NormalizeKey(key), KeyLetters(key)[i]) < IndexOf(NormalizeKey(key), KeyLetters(key)[j])
  {
    AlphabetDistinct();
    AbsorbDistinct(KeyLetters(key), Alphabet());
    AbsorbOrder(NormalizeKey(key));
  }

  /** A key without letters of the alphabet yields the plain alphabet. */
  lemma KeyWithoutLetters(key: string)
    requires forall c :: c in NormalizeKey(key) ==> c !in Alphabet()
    ensures SquareLetters(key) == Alphabet()
  {
    AbsorbNothing([], NormalizeKey(key));
    AlphabetDistinct();
    AbsorbDistinct([], Alphabet());
    UnusedNone(Alphabet());
  }

  /** A sequence without letters of the alphabet absorbs nothing. */
  lemma {:induction false} AbsorbNothing(acc: string, s: string)
    requires forall c :: c in s ==> c !in Alphabet()
    ensures Absorb(acc, s) == acc
  {
    if s != [] {
      assert s[|s| - 1] in s;
      assert forall c :: c in s[..|s| - 1] ==> c in s;
      AbsorbNothing(acc, s[..|s| - 1]);
    }
  }

  lemma {:induction false} UnusedNone(s: string)
    ensures Unused(s, []) == s
  {
    if s != [] {
      var t := s[..|s| - 1];
      UnusedNone(t);
      assert s == t + [s[|s| - 1]];
    }
  }

  /** prepare_key: two append loops, then the cut into rows. */
  method PrepareKey(key: string) returns (matrix: Square)
    ensures matrix == KeySquare(key)
  {
    var k := NormalizeKey(key);
    var keyMatrix: string := [];
    for i := 0 to |k|
      invariant keyMatrix == Absorb([], k[..i])
    {
      assert k[..i + 1][..i] == k[..i];
      var c := k[i];
      if c in Alphabet() && c !in keyMatrix {
        keyMatrix := keyMatrix + [c];
      }
    }
    assert k[..|k|] == k;
    var keyPart := keyMatrix;
    for i := 0 to 25
      invariant keyMatrix == Absorb(keyPart, Alphabet()[..i])
    {
      assert Alphabet()[..i + 1][..i] == Alphabet()[..i];
      var c := Alphabet()[i];
      if c !in keyMatrix {
        keyMatrix := keyMatrix + [c];
      }
    }
    assert Alphabet()[..25] == Alphabet();
    assert keyMatrix == SquareLetters(key);
    matrix := seq(5, i requires 0 <= i < 5 => keyMatrix[5 * i..5 * i + 5]);
  }

  // ---------------------------------------------------------------------
  // find_position
  // ---------------------------------------------------------------------

  /** Cell (i, j) comes before cell (i', j') in row-major order. */
  predicate Before(i: int, j: int, i': int, j': int) {
    i < i' || (i == i' && j < j')
  }

  /** The first cell, in row-major order from cell (i, j), that holds `c`. */
  function LocateFrom(m: Square, c: char, i: int, j: int): (r: (int, int))
    requires IsSquare(m) && 0 <= i <= 5 && 0 <= j <= 5
    decreases 5 - i, 5 - j
    ensures r == (-1, -1) || (0 <= r.0 < 5 && 0 <= r.1 < 5 && m[r.0][r.1] == c && !Before(r.0, r.1, i, j))
  {
    if i == 5 then (-1, -1)
    else if j == 5 then LocateFrom(m, c, i + 1, 0)
    else if m[i][j] == c then (i, j)
    else LocateFrom(m, c, i, j + 1)
  }

  /** The scan from (i, j) misses `c` only when no later cell holds it, and stops at the first that does. */
  lemma {:induction false} LocateFromFirst(m: Square, c: char, i: int, j: int)
    requires IsSquare(m) && 0 <= i <= 5 && 0 <= j <= 5
    decreases 5 - i, 5 - j
    ensures var r := LocateFrom(m, c, i, j);
            r == (-1, -1) <==>
              forall i', j' :: 0 <= i' < 5 && 0 <= j' < 5 && !Before(i', j', i, j) ==> m[i'][j'] != c
    ensures var r := LocateFrom(m, c, i, j);
            r != (-1, -1) ==>
              forall i', j' :: 0 <= i' < 5 && 0 <= j' < 5 && !Before(i', j', i, j) && Before(i', j', r.0, r.1) ==>
                m[i'][j'] != c
  {
    if i == 5 {
    } else if j == 5 {
      LocateFromFirst(m, c, i + 1, 0);
    } else if m[i][j] != c {
      LocateFromFirst(m, c, i, j + 1);
    }
  }

  /**
   * find_position: the first cell (row-major) holding `c`, or (-1, -1)
   * when the square does not contain it.
   */
  function Locate(m: Square, c: char): (r: (int, int))
    requires IsSquare(m)
    ensures r == (-1, -1) || (0 <= r.0 < 5 && 0 <= r.1 < 5 && m[r.0][r.1] == c)
  {
    LocateFrom(m, c, 0, 0)
  }

  /** Locate fails exactly when no cell holds `c`, and otherwise finds the first cell that does. */
  lemma LocateSpec(m: Square, c: char)
    requires IsSquare(m)
    ensures Locate(m, c) == (-1, -1) <==> forall i, j :: 0 <= i < 5 && 0 <= j < 5 ==> m[i][j] != c
    ensures var r := Locate(m, c);
            r != (-1, -1) ==> forall i, j :: 0 <= i < 5 && 0 <= j < 5 && Before(i, j, r.0, r.1) ==> m[i][j] != c
  {
    LocateFromFirst(m, c, 0, 0);
  }

  /** The first cell holding `c` is what Locate finds. */
  lemma LocateFirst(m: Square, c: char, i: int, j: int)
    requires IsSquare(m) && 0 <= i < 5 && 0 <= j < 5 && m[i][j] == c
    requires forall i', j' :: 0 <= i' < 5 && 0 <= j' < 5 && Before(i', j', i, j) ==> m[i'][j'] != c
    ensures Locate(m, c) == (i, j)
  {
    LocateSpec(m, c);
    var r := Locate(m, c);
    assert r != (-1, -1);
    assert !Before(i, j, r.0, r.1);
    assert !Before(r.0, r.1, i, j);
  }

  /** In a square without repeated letters, locating a cell's letter finds that cell. */
  lemma LocateCell(m: Square, i: int, j: int)
    requires IsSquare(m) && CellsDistinct(m) && 0 <= i < 5 && 0 <= j < 5
    ensures Locate(m, m[i][j]) == (i, j)
  {
    LocateFirst(m, m[i][j], i, j);
  }

  /** find_position: nested loops with an early return. */
  method FindPosition(matrix: Square, c: char) returns (row: int, col: int)
    requires IsSquare(matrix)
    ensures (row, col) == Locate(matrix, c)
  {
    for i := 0 to 5
      invariant forall i', j' :: 0 <= i' < i && 0 <= j' < 5 ==> matrix[i'][j'] != c
    {
      for j := 0 to 5
        invariant forall i', j' :: 0 <= i' < i && 0 <= j' < 5 ==> matrix[i'][j'] != c
        invariant forall j' :: 0 <= j' < j ==> matrix[i][j'] != c
      {
        if matrix[i][j] == c {
          LocateFirst(matrix, c, i, j);
          return i, j;
        }
      }
    }
    return -1, -1;
  }

  // ---------------------------------------------------------------------
  // prepare_text
  // ---------------------------------------------------------------------

  /**
   * The plaintext upper-cased, restricted to letters, with J replaced by I
   * (prepare_text's first two statements).
   */
  function CleanText(text: string): (r: string)
    ensures |r| <= |text|
    ensures forall c :: c in r ==> c in Alphabet()
  {
    if text == [] then []
    else
      var c := Upper(text[0]);
      AlphabetMembership(MergeJ(c));
      (if IsAlpha(c) then [MergeJ(c)] else []) + CleanText(text[1..])
  }

  /** The digraphs the while loop of prepare_text builds from cleaned text. */
  function Pairs(t: string): seq<string>
    decreases |t|
  {
    if |t| == 0 then []
    else if |t| == 1 then [[t[0], 'X']]
    else if t[0] == t[1] then [[t[0], 'X']] + Pairs(t[1..])
    else [[t[0], t[1]]] + Pairs(t[2..])
  }

  /** prepare_text as a function of the raw plaintext. */
  function Digraphs(text: string): seq<string> {
    Pairs(CleanText(text))
  }

  function Flatten(ds: seq<string>): string {
    if ds == [] then [] else ds[0] + Flatten(ds[1..])
  }

  /** `u` is `t` with some letters X inserted. */
  predicate XPadded(t: string, u: string)
    decreases |u|
  {
    if u == [] then t == []
    else (t != [] && u[0] == t[0] && XPadded(t[1..], u[1..])) || (u[0] == 'X' && XPadded(t, u[1..]))
  }

  /** Every digraph has two letters, and two equal letters only as XX. */
  lemma {:induction false} PairsLength(t: string)
    ensures forall d :: d in Pairs(t) ==> |d| == 2 && (d[0] == d[1] ==> d[0] == 'X')
  {
    if |t| >= 2 {
      PairsLength(if t[0] == t[1] then t[1..] else t[2..]);
    }
  }

  lemma DigraphsArePairs(text: string)
    ensures AllPairs(Digraphs(text))
  {
    var ds := Digraphs(text);
    PairsLength(CleanText(text));
    forall k | 0 <= k < |ds| ensures |ds[k]| >= 2 {
      assert ds[k] in ds;
    }
  }

  /** The digraphs hold letters of the text and fillers X only. */
  lemma {:induction false} PairsLetters(t: string)
    ensures forall d, c :: d in Pairs(t) && c in d ==> c in t || c == 'X'
  {
    if |t| >= 2 {
      var rest := if t[0] == t[1] then t[1..] else t[2..];
      PairsLetters(rest);
      assert forall c :: c in rest ==> c in t;
    }
  }

  /**
   * The digraphs spell out the text with fillers X inserted: after the
   * first of two equal adjacent letters and after a trailing odd letter.
   */
  lemma {:induction false} PairsPadded(t: string)
    ensures XPadded(t, Flatten(Pairs(t)))
  {
    if |t| == 1 {
      assert Flatten(Pairs(t)) == [t[0], 'X'];
      assert XPadded(t[1..], ['X']);
    } else if |t| >= 2 {
      var rest := if t[0] == t[1] then t[1..] else t[2..];
      PairsPadded(rest);
      var u := Flatten(Pairs(t));
      assert u == Pairs(t)[0] + Flatten(Pairs(rest));
      if t[0] == t[1] {
        assert u[1..][1..] == Flatten(Pairs(rest));
        assert XPadded(t[1..], u[1..]);
      } else {
        assert u[1..][1..] == Flatten(Pairs(rest));
        assert t[1..][1..] == rest;
        assert XPadded(t[1..], u[1..]);
      }
    }
  }

  /** Every prepared digraph has length 2 and consists of letters of the square (so no J). */
  lemma DigraphsShape(text: string)
    ensures forall d :: d in Digraphs(text) ==> |d| == 2 && d[0] in Alphabet() && d[1] in Alphabet()
    ensures 'J' !in Flatten(Digraphs(text))
    ensures XPadded(CleanText(text), Flatten(Digraphs(text)))
  {
    PairsLength(CleanText(text));
    PairsLetters(CleanText(text));
    PairsPadded(CleanText(text));
    AlphabetMembership('X');
    AlphabetMembership('J');
    FlattenMembers(Digraphs(text));
  }

  lemma {:induction false} FlattenMembers(ds: seq<string>)
    ensures forall c :: c in Flatten(ds) ==> exists d :: d in ds && c in d
  {
    if ds != [] {
      FlattenMembers(ds[1..]);
      assert forall d :: d in ds[1..] ==> d in ds;
    }
  }

  /** One step of prepare_text's loop at index `i`, in the three cases the loop distinguishes. */
  lemma PairsAt(t: string, i: int)
    requires 0 <= i < |t|
    ensures i == |t| - 1 ==> Pairs(t[i..]) == [[t[i], 'X']]
    ensures i < |t| - 1 && t[i] == t[i + 1] ==> Pairs(t[i..]) == [[t[i], 'X']] + Pairs(t[i + 1..])
    ensures i < |t| - 1 && t[i] != t[i + 1] ==> Pairs(t[i..]) == [[t[i], t[i + 1]]] + Pairs(t[i + 2..])
  {
    assert t[i..][1..] == t[i + 1..];
    if i < |t| - 1 {
      assert t[i..][2..] == t[i + 2..];
    }
  }

  /** prepare_text: the cleaning expressions, then a while loop over index `i`. */
  method PrepareText(text: string) returns (result: seq<string>)
    ensures result == Digraphs(text)
  {
    var t := CleanText(text);
    result := [];
    var i := 0;
    while i < |t|
      invariant 0 <= i <= |t|
      invariant result + Pairs(t[i..]) == Pairs(t)
    {
      PairsAt(t, i);
      if i == |t| - 1 {
        AppendAssoc(result, [[t[i], 'X']], []);
        result := result + [[t[i], 'X']];
        i := i + 1;
      } else if t[i] == t[i + 1] {
        AppendAssoc(result, [[t[i], 'X']], Pairs(t[i + 1..]));
        result := result + [[t[i], 'X']];
        i := i + 1;
      } else {
        AppendAssoc(result, [[t[i], t[i + 1]]], Pairs(t[i + 2..]));
        result := result + [[t[i], t[i + 1]]];
        i := i + 2;
      }
    }
    assert t[i..] == [];
  }

  // ---------------------------------------------------------------------
  // encrypt and decrypt
  // ---------------------------------------------------------------------

  /** Python list indexing: -1 stands for the last row or column. */
  function PyIndex(i: int): (r: int)
    requires -5 <= i < 5
    ensures 0 <= r < 5 && (0 <= i ==> r == i)
  {
    if i < 0 then i + 5 else i
  }

  /** The loop body of encrypt for one digraph. */
  function EncryptPair(m: Square, a: char, b: char): (r: string)
    requires IsSquare(m)
    ensures |r| == 2
  {
    var (ra, ca) := Locate(m, a);
    var (rb, cb) := Locate(m, b);
    if ra == rb then [m[PyIndex(ra)][(ca + 1) % 5], m[PyIndex(rb)][(cb + 1) % 5]]
    else if ca == cb then [m[(ra + 1) % 5][PyIndex(ca)], m[(rb + 1) % 5][PyIndex(cb)]]
    else [m[PyIndex(ra)][PyIndex(cb)], m[PyIndex(rb)][PyIndex(ca)]]
  }

  /** The loop body of decrypt for one digraph. */
  function DecryptPair(m: Square, a: char, b: char): (r: string)
    requires IsSquare(m)
    ensures |r| == 2
  {
    var (ra, ca) := Locate(m, a);
    var (rb, cb) := Locate(m, b);
    if ra == rb then [m[PyIndex(ra)][(ca - 1) % 5], m[PyIndex(rb)][(cb - 1) % 5]]
    else if ca == cb then [m[(ra - 1) % 5][PyIndex(ca)], m[(rb - 1) % 5][PyIndex(cb)]]
    else [m[PyIndex(ra)][PyIndex(cb)], m[PyIndex(rb)][PyIndex(ca)]]
  }

  /**
   * The three encryption rules for two letters found at (ra, ca) and
   * (rb, cb): right neighbours in a row, lower neighbours in a column,
   * otherwise the opposite corners of the rectangle, on the same rows.
   */
  lemma EncryptRules(m: Square, a: char, b: char, ra: int, ca: int, rb: int, cb: int)
    requires IsSquare(m) && Locate(m, a) == (ra, ca) && Locate(m, b) == (rb, cb)
    requires 0 <= ra < 5 && 0 <= ca < 5 && 0 <= rb < 5 && 0 <= cb < 5
    ensures ra == rb ==> EncryptPair(m, a, b) == [m[ra][(ca + 1) % 5], m[rb][(cb + 1) % 5]]
    ensures ra != rb && ca == cb ==> EncryptPair(m, a, b) == [m[(ra + 1) % 5][ca], m[(rb + 1) % 5][cb]]
    ensures ra != rb && ca != cb ==> EncryptPair(m, a, b) == [m[ra][cb], m[rb][ca]]
  {
  }

  /** The decryption rules: left and upper neighbours, and the same rectangle rule. */
  lemma DecryptRules(m: Square, a: char, b: char, ra: int, ca: int, rb: int, cb: int)
    requires IsSquare(m) && Locate(m, a) == (ra, ca) && Locate(m, b) == (rb, cb)
    requires 0 <= ra < 5 && 0 <= ca < 5 && 0 <= rb < 5 && 0 <= cb < 5
    ensures ra == rb ==> DecryptPair(m, a, b) == [m[ra][(ca - 1) % 5], m[rb][(cb - 1) % 5]]
    ensures ra != rb && ca == cb ==> DecryptPair(m, a, b) == [m[(ra - 1) % 5][ca], m[(rb - 1) % 5][cb]]
    ensures ra != rb && ca != cb ==> DecryptPair(m, a, b) == [m[ra][cb], m[rb][ca]]
  {
  }

  /** Two letters read from cells of a square without repeated letters are found at those cells. */
  lemma LocatePair(m: Square, r: string, i: int, j: int, k: int, l: int)
    requires IsSquare(m) && CellsDistinct(m) && 0 <= i < 5 && 0 <= j < 5 && 0 <= k < 5 && 0 <= l < 5
    requires r == [m[i][j], m[k][l]]
    ensures Locate(m, r[0]) == (i, j) && Locate(m, r[1]) == (k, l)
  {
    LocateCell(m, i, j);
    LocateCell(m, k, l);
  }

  /**
   * In a square without repeated letters, encryption's letters are found at
   * the cells the rules name: one column to the right (wrapping) in a
   * shared row, one row down (wrapping) in a shared column, and otherwise
   * the other two corners of the rectangle, each on its own letter's row.
   */
  lemma EncryptPositions(m: Square, a: char, b: char, ra: int, ca: int, rb: int, cb: int)
    requires IsSquare(m) && CellsDistinct(m) && Locate(m, a) == (ra, ca) && Locate(m, b) == (rb, cb)
    requires 0 <= ra < 5 && 0 <= ca < 5 && 0 <= rb < 5 && 0 <= cb < 5
    ensures ra == rb ==>
              Locate(m, EncryptPair(m, a, b)[0]) == (ra, (ca + 1) % 5) &&
              Locate(m, EncryptPair(m, a, b)[1]) == (rb, (cb + 1) % 5)
    ensures ra != rb && ca == cb ==>
              Locate(m, EncryptPair(m, a, b)[0]) == ((ra + 1) % 5, ca) &&
              Locate(m, EncryptPair(m, a, b)[1]) == ((rb + 1) % 5, cb)
    ensures ra != rb && ca != cb ==>
              Locate(m, EncryptPair(m, a, b)[0]) == (ra, cb) && Locate(m, EncryptPair(m, a, b)[1]) == (rb, ca)
  {
    EncryptRules(m, a, b, ra, ca, rb, cb);
    if ra == rb {
      Wrap(ca);
      Wrap(cb);
      LocatePair(m, EncryptPair(m, a, b), ra, (ca + 1) % 5, rb, (cb + 1) % 5);
    } else if ca == cb {
      Wrap(ra);
      Wrap(rb);
      LocatePair(m, EncryptPair(m, a, b), (ra + 1) % 5, ca, (rb + 1) % 5, cb);
    } else {
      LocatePair(m, EncryptPair(m, a, b), ra, cb, rb, ca);
    }
  }

  /** Decryption's letters are found one column to the left, one row up, or at the rectangle's other corners. */
  lemma DecryptPositions(m: Square, a: char, b: char, ra: int, ca: int, rb: int, cb: int)
    requires IsSquare(m) && CellsDistinct(m) && Locate(m, a) == (ra, ca) && Locate(m, b) == (rb, cb)
    requires 0 <= ra < 5 && 0 <= ca < 5 && 0 <= rb < 5 && 0 <= cb < 5
    ensures ra == rb ==>
              Locate(m, DecryptPair(m, a, b)[0]) == (ra, (ca - 1) % 5) &&
              Locate(m, DecryptPair(m, a, b)[1]) == (rb, (cb - 1) % 5)
    ensures ra != rb && ca == cb ==>
              Locate(m, DecryptPair(m, a, b)[0]) == ((ra - 1) % 5, ca) &&
              Locate(m, DecryptPair(m, a, b)[1]) == ((rb - 1) % 5, cb)
    ensures ra != rb && ca != cb ==>
              Locate(m, DecryptPair(m, a, b)[0]) == (ra, cb) && Locate(m, DecryptPair(m, a, b)[1]) == (rb, ca)
  {
    DecryptRules(m, a, b, ra, ca, rb, cb);
    if ra == rb {
      Wrap(ca);
      Wrap(cb);
      LocatePair(m, DecryptPair(m, a, b), ra, (ca - 1) % 5, rb, (cb - 1) % 5);
    } else if ca == cb {
      Wrap(ra);
      Wrap(rb);
      LocatePair(m, DecryptPair(m, a, b), (ra - 1) % 5, ca, (rb - 1) % 5, cb);
    } else {
      LocatePair(m, DecryptPair(m, a, b), ra, cb, rb, ca);
    }
  }

  /** Every element of `ds` has at least two characters. */
  predicate AllPairs(ds: seq<string>) {
    forall k :: 0 <= k < |ds| ==> |ds[k]| >= 2
  }

  function EncryptPairs(m: Square, ds: seq<string>): (r: string)
    requires IsSquare(m)
    requires AllPairs(ds)
    ensures |r| == 2 * |ds|
  {
    if ds == [] then [] else EncryptPair(m, ds[0][0], ds[0][1]) + EncryptPairs(m, ds[1..])
  }

  /** decrypt's loop over the two-character slices of the ciphertext. */
  function DecryptText(m: Square, c: string): (r: string)
    requires IsSquare(m)
    ensures |c| - 1 <= |r| <= |c|
  {
    if |c| < 2 then [] else DecryptPair(m, c[0], c[1]) + DecryptText(m, c[2..])
  }

  /** Two letters out for every two in: only an odd last character is dropped. */
  lemma {:induction false} DecryptLength(m: Square, c: string)
    requires IsSquare(m)
    ensures |DecryptText(m, c)| == |c| - |c| % 2
    decreases |c|
  {
    var n := |c|;
    if n >= 2 {
      var rest := c[2..];
      DecryptLength(m, rest);
      assert |rest| == n - 2;
      assert (n - 2) % 2 == n % 2;
      assert |DecryptText(m, c)| == 2 + |DecryptText(m, rest)|;
    } else {
      assert n % 2 == n;
    }
  }

  /** encrypt(plaintext, key) */
  function Enciphered(plaintext: string, key: string): (r: string)
    ensures |r| == 2 * |Digraphs(plaintext)|
  {
    DigraphsArePairs(plaintext);
    EncryptPairs(KeySquare(key), Digraphs(plaintext))
  }

  /** decrypt(ciphertext, key) */
  function Deciphered(ciphertext: string, key: string): (r: string)
    ensures |r| == |ciphertext| - |ciphertext| % 2
  {
    DecryptLength(KeySquare(key), ciphertext);
    DecryptText(KeySquare(key), ciphertext)
  }

  /** A trailing odd character of the ciphertext is ignored. */
  lemma {:induction false} DecryptIgnoresOddTail(m: Square, c: string, x: char)
    requires IsSquare(m) && |c| % 2 == 0
    ensures DecryptText(m, c + [x]) == DecryptText(m, c)
  {
    if |c| >= 2 {
      assert (c + [x])[2..] == c[2..] + [x];
      DecryptIgnoresOddTail(m, c[2..], x);
    }
  }

  /**
   * Python's `% 5` on a neighbouring index wraps around at the edges of the
   * square; -1 is where find_position's "not found" lands.
   */
  lemma Wrap(x: int)
    requires -1 <= x < 5
    ensures (x + 1) % 5 == if x == 4 then 0 else x + 1
    ensures (x - 1) % 5 == if x == 0 then 4 else if x == -1 then 3 else x - 1
  {
    if x == -1 {} else if x == 0 {} else if x == 1 {} else if x == 2 {} else if x == 3 {} else {}
  }

  /** Stepping forward and back within a row or column is the identity, and stepping is injective. */
  lemma Step(x: int, y: int)
    requires 0 <= x < 5 && 0 <= y < 5
    ensures ((x + 1) % 5 - 1) % 5 == x
    ensures (x + 1) % 5 == (y + 1) % 5 ==> x == y
  {
    Wrap(x);
    Wrap(y);
    Wrap((x + 1) % 5);
  }

  /** A well-formed key square: 5x5, no letter twice, every letter of the alphabet present. */
  predicate ValidSquare(m: Square) {
    IsSquare(m) && CellsDistinct(m) && CoversAlphabet(m)
  }

  /** Same row: the right neighbours of two cells decrypt to the cells themselves. */
  lemma RowRoundTrip(m: Square, r: int, ca: int, cb: int)
    requires IsSquare(m) && CellsDistinct(m) && 0 <= r < 5 && 0 <= ca < 5 && 0 <= cb < 5
    ensures DecryptPair(m, m[r][(ca + 1) % 5], m[r][(cb + 1) % 5]) == [m[r][ca], m[r][cb]]
  {
    Wrap(ca);
    Wrap(cb);
    var ea, eb := (ca + 1) % 5, (cb + 1) % 5;
    Wrap(ea);
    Wrap(eb);
    LocateCell(m, r, ea);
    LocateCell(m, r, eb);
    DecryptRules(m, m[r][ea], m[r][eb], r, ea, r, eb);
  }

  /** Same column, different rows: the lower neighbours decrypt to the cells themselves. */
  lemma ColumnRoundTrip(m: Square, ra: int, rb: int, c: int)
    requires IsSquare(m) && CellsDistinct(m) && 0 <= ra < 5 && 0 <= rb < 5 && 0 <= c < 5 && ra != rb
    ensures DecryptPair(m, m[(ra + 1) % 5][c], m[(rb + 1) % 5][c]) == [m[ra][c], m[rb][c]]
  {
    Wrap(ra);
    Wrap(rb);
    var ea, eb := (ra + 1) % 5, (rb + 1) % 5;
    Wrap(ea);
    Wrap(eb);
    LocateCell(m, ea, c);
    LocateCell(m, eb, c);
    DecryptRules(m, m[ea][c], m[eb][c], ea, c, eb, c);
  }

  /** Different rows and columns: the swapped corners decrypt to the original corners. */
  lemma RectangleRoundTrip(m: Square, ra: int, ca: int, rb: int, cb: int)
    requires IsSquare(m) && CellsDistinct(m) && 0 <= ra < 5 && 0 <= ca < 5 && 0 <= rb < 5 && 0 <= cb < 5
    requires ra != rb && ca != cb
    ensures DecryptPair(m, m[ra][cb], m[rb][ca]) == [m[ra][ca], m[rb][cb]]
  {
    LocateCell(m, ra, cb);
    LocateCell(m, rb, ca);
    DecryptRules(m, m[ra][cb], m[rb][ca], ra, cb, rb, ca);
  }

  /** In a valid square, decrypting an encrypted digraph of letters of the alphabet gives it back. */
  lemma PairRoundTrip(m: Square, a: char, b: char)
    requires ValidSquare(m) && a in Alphabet() && b in Alphabet()
    ensures var e := EncryptPair(m, a, b); DecryptPair(m, e[0], e[1]) == [a, b]
  {
    var ra, ca := Locate(m, a).0, Locate(m, a).1;
    var rb, cb := Locate(m, b).0, Locate(m, b).1;
    EncryptRules(m, a, b, ra, ca, rb, cb);
    if ra == rb {
      RowRoundTrip(m, ra, ca, cb);
    } else if ca == cb {
      ColumnRoundTrip(m, ra, rb, ca);
    } else {
      RectangleRoundTrip(m, ra, ca, rb, cb);
    }
  }

  lemma TwoLetters(d: string)
    requires |d| == 2
    ensures d == [d[0], d[1]]
  {
  }

  lemma DecryptTextCons(m: Square, e: string, rest: string)
    requires IsSquare(m) && |e| == 2
    ensures DecryptText(m, e + rest) == DecryptPair(m, e[0], e[1]) + DecryptText(m, rest)
  {
    assert (e + rest)[2..] == rest;
  }

  lemma {:induction false} PairsRoundTrip(m: Square, ds: seq<string>)
    requires ValidSquare(m)
    requires forall d :: d in ds ==> |d| == 2 && d[0] in Alphabet() && d[1] in Alphabet()
    ensures DecryptText(m, EncryptPairs(m, ds)) == Flatten(ds)
  {
    if ds != [] {
      var d := ds[0];
      assert d in ds;
      var e := EncryptPair(m, d[0], d[1]);
      var rest := EncryptPairs(m, ds[1..]);
      assert forall d' :: d' in ds[1..] ==> d' in ds;
      PairsRoundTrip(m, ds[1..]);
      PairRoundTrip(m, d[0], d[1]);
      DecryptTextCons(m, e, rest);
      TwoLetters(d);
    }
  }

  /**
   * Round trip: decrypting the encryption of any plaintext under the same
   * key gives the concatenation of its prepared digraphs.
   */
  lemma RoundTrip(plaintext: string, key: string)
    ensures Deciphered(Enciphered(plaintext, key), key) == Flatten(Digraphs(plaintext))
  {
    DigraphsShape(plaintext);
    KeySquareIsPermutation(key);
    PairsRoundTrip(KeySquare(key), Digraphs(plaintext));
  }

  lemma AppendAssoc<T>(a: seq<T>, b: seq<T>, c: seq<T>)
    ensures (a + b) + c == a + (b + c)
  {
  }

  lemma EncryptPairsStep(m: Square, ds: seq<string>, i: int)
    requires IsSquare(m) && 0 <= i < |ds| && AllPairs(ds)
    ensures EncryptPairs(m, ds[i..]) == EncryptPair(m, ds[i][0], ds[i][1]) + EncryptPairs(m, ds[i + 1..])
  {
    assert ds[i..][1..] == ds[i + 1..];
  }

  lemma DecryptTextStep(m: Square, c: string, i: int)
    requires IsSquare(m) && 0 <= i && i + 2 <= |c|
    ensures DecryptText(m, c[i..]) == DecryptPair(m, c[i], c[i + 1]) + DecryptText(m, c[i + 2..])
  {
    assert c[i..][2..] == c[i + 2..];
  }

  /** The body of encrypt's loop: locate both letters and apply the matching rule. */
  method EncryptDigraph(matrix: Square, a: char, b: char) returns (e: string)
    requires IsSquare(matrix)
    ensures e == EncryptPair(matrix, a, b)
  {
    var rowA, colA := FindPosition(matrix, a);
    var rowB, colB := FindPosition(matrix, b);
    Wrap(rowA);
    Wrap(colA);
    Wrap(rowB);
    Wrap(colB);
    if rowA == rowB {
      e := [matrix[PyIndex(rowA)][(colA + 1) % 5], matrix[PyIndex(rowB)][(colB + 1) % 5]];
    } else if colA == colB {
      e := [matrix[(rowA + 1) % 5][PyIndex(colA)], matrix[(rowB + 1) % 5][PyIndex(colB)]];
    } else {
      e := [matrix[PyIndex(rowA)][PyIndex(colB)], matrix[PyIndex(rowB)][PyIndex(colA)]];
    }
  }

  /** encrypt: a loop over the prepared digraphs. */
  method Encrypt(plaintext: string, key: string) returns (result: string)
    ensures result == Enciphered(plaintext, key)
  {
    var matrix := PrepareKey(key);
    var digraphs := PrepareText(plaintext);
    DigraphsArePairs(plaintext);
    result := [];
    for i := 0 to |digraphs|
      invariant result + EncryptPairs(matrix, digraphs[i..]) == EncryptPairs(matrix, digraphs)
    {
      var pair := digraphs[i];
      assert pair in digraphs;
      var e := EncryptDigraph(matrix, pair[0], pair[1]);
      EncryptPairsStep(matrix, digraphs, i);
      AppendAssoc(result, e, EncryptPairs(matrix, digraphs[i + 1..]));
      result := result + e;
    }
    assert digraphs[|digraphs|..] == [];
  }

  /** The body of decrypt's loop for a full pair: locate both letters and undo the matching rule. */
  method DecryptDigraph(matrix: Square, a: char, b: char) returns (d: string)
    requires IsSquare(matrix)
    ensures d == DecryptPair(matrix, a, b)
  {
    var rowA, colA := FindPosition(matrix, a);
    var rowB, colB := FindPosition(matrix, b);
    Wrap(rowA);
    Wrap(colA);
    Wrap(rowB);
    Wrap(colB);
    if rowA == rowB {
      d := [matrix[PyIndex(rowA)][(colA - 1) % 5], matrix[PyIndex(rowB)][(colB - 1) % 5]];
    } else if colA == colB {
      d := [matrix[(rowA - 1) % 5][PyIndex(colA)], matrix[(rowB - 1) % 5][PyIndex(colB)]];
    } else {
      d := [matrix[PyIndex(rowA)][PyIndex(colB)], matrix[PyIndex(rowB)][PyIndex(colA)]];
    }
  }

  /** decrypt: a loop over the two-character slices, skipping a short last one. */
  method Decrypt(ciphertext: string, key: string) returns (result: string)
    ensures result == Deciphered(ciphertext, key)
  {
    var matrix := PrepareKey(key);
    result := [];
    var i := 0;
    while i < |ciphertext|
      invariant 0 <= i <= |ciphertext| + 1
      invariant i <= |ciphertext| ==> result + DecryptText(matrix, ciphertext[i..]) == DecryptText(matrix, ciphertext)
      invariant i > |ciphertext| ==> result == DecryptText(matrix, ciphertext)
      decreases |ciphertext| - i
    {
      var pair := ciphertext[i..if i + 2 <= |ciphertext| then i + 2 else |ciphertext|];
      if |pair| < 2 {
        assert i + 1 == |ciphertext|;
        assert DecryptText(matrix, ciphertext[i..]) == [];
        assert result + [] == result;
        i := i + 2;
        continue;
      }
      assert pair[0] == ciphertext[i] && pair[1] == ciphertext[i + 1];
      var d := DecryptDigraph(matrix, pair[0], pair[1]);
      DecryptTextStep(matrix, ciphertext, i);
      AppendAssoc(result, d, DecryptText(matrix, ciphertext[i + 2..]));
      result := result + d;
      i := i + 2;
    }
  }
}
