/**
 * The tile grid shared by ElsieFour (LC4, a 6x6 grid) and LS47 (a 7x7 grid):
 * the two alphabets, tile positions and their modular arithmetic, lookups in
 * a key, and the row and column rotations that make the key evolve.
 *
 * A key is a flat string of size*size symbols read row by row, so the tile at
 * position (row, col) is key[row * size + col].
 */
module Grid {

  /** Side length of the grid: 6 for LC4, 7 for LS47. */
  type Size = s: nat | s == 6 || s == 7 witness 6

  /** The 36-symbol LC4 alphabet. */
  const Letters6: string := "#_23456789abcdefghijklmnopqrstuvwxyz"

  /** The 49-symbol LS47 alphabet (written as two literals, the same string). */
  const Letters7: string := "_abcdefghijklmnopqrstuvwxyz" + ".0123456789,-+*/:?!'()"

  /** Every failure the two programs raise, as a kind instead of a message. */
  datatype Error =
    | NotInAlphabet(symbol: char)                                        // find_ix, LS47 check_key
    | NotInKey(symbol: char)                                             // find_pos
    | InvalidKey(illegal: string, missing: string, duplicates: string)  // LC4 check_key
    | IllegalNonce(illegal: string)
    | IllegalPlaintext(illegal: string)
    | IllegalCiphertext(illegal: string)
    | WrongKeySize                                                       // LS47 check_key
    | DuplicatedInKey(symbol: char)                                      // LS47 check_key

  /** A value, or the error the source raises instead of returning it. */
  datatype Result<T> = Ok(value: T) | Err(error: Error) {
    predicate IsFailure() { Err? }
    function PropagateFailure<U>(): Result<U> requires Err? { Err(error) }
    function Extract(): T requires Ok? { value }
  }

  /** A tile position (row, col). */
  datatype Pos = Pos(row: nat, col: nat)

  predicate InRange(size: Size, p: Pos) {
    p.row < size && p.col < size
  }

  predicate Distinct(s: string) {
    forall i, j :: 0 <= i < j < |s| ==> s[i] != s[j]
  }

  predicate StrictlySorted(s: string) {
    forall i, j :: 0 <= i < j < |s| ==> s[i] < s[j]
  }

  /** Every symbol of s is in the alphabet. */
  predicate OverAlphabet(size: Size, s: string) {
    forall i :: 0 <= i < |s| ==> s[i] in Letters(size)
  }

  /** s[:n] with Python's clamping. */
  function Take(s: string, n: nat): (r: string)
    ensures |r| == if n <= |s| then n else |s|
    ensures r == s[..|r|]
  {
    if n <= |s| then s[..n] else s
  }

  /** s[n:] with Python's clamping. */
  function Drop(s: string, n: nat): (r: string)
    ensures |r| == if n <= |s| then |s| - n else 0
    ensures r == s[|s| - |r|..]
  {
    if n <= |s| then s[n..] else []
  }

  /** The two halves of a concatenation, cut where they meet. */
  lemma SplitAt(a: string, b: string)
    ensures Take(a + b, |a|) == a && Drop(a + b, |a|) == b
  {
  }

  /** key is a rearrangement of letters: the same symbols, each as often. */
  predicate IsPermutation(key: string, letters: string) {
    multiset(key) == multiset(letters)
  }

  // ---------------------------------------------------------------------------
  // The alphabets

  /** The index of each LC4 symbol in the alphabet (a witness that none repeats). */
  function Rank6(c: char): int {
    if c == '#' then 0
    else if c == '_' then 1
    else if '2' <= c <= '9' then c as int - '2' as int + 2
    else if 'a' <= c <= 'z' then c as int - 'a' as int + 10
    else -1
  }

  /** The index of each LS47 symbol in the alphabet (a witness that none repeats). */
  function Rank7(c: char): int {
    if c == '_' then 0
    else if 'a' <= c <= 'z' then c as int - 'a' as int + 1
    else if c == '.' then 27
    else if '0' <= c <= '9' then c as int - '0' as int + 28
    else if c == ',' then 38 else if c == '-' then 39 else if c == '+' then 40
    else if c == '*' then 41 else if c == '/' then 42 else if c == ':' then 43
    else if c == '?' then 44 else if c == '!' then 45 else if c == '\'' then 46
    else if c == '(' then 47 else if c == ')' then 48
    else -1
  }

  /** Symbol i of the LC4 alphabet, computed from its index. */
  function Symbol6(i: nat): char
    requires i < 36
  {
    if i == 0 then '#'
    else if i == 1 then '_'
    else if i < 10 then ('2' as int + (i - 2)) as char
    else ('a' as int + (i - 10)) as char
  }

  /** Symbol i of the LS47 alphabet, computed from its index. */
  function Symbol7(i: nat): char
    requires i < 49
  {
    if i == 0 then '_'
    else if i < 27 then ('a' as int + (i - 1)) as char
    else if i == 27 then '.'
    else if i < 38 then ('0' as int + (i - 28)) as char
    else if i == 38 then ',' else if i == 39 then '-' else if i == 40 then '+'
    else if i == 41 then '*' else if i == 42 then '/' else if i == 43 then ':'
    else if i == 44 then '?' else if i == 45 then '!' else if i == 46 then '\''
    else if i == 47 then '(' else ')'
  }

  function Symbol(size: Size, i: nat): char
    requires i < size * size
  {
    if size == 6 then Symbol6(i) else Symbol7(i)
  }

  /**
   * The alphabet of a grid size: letters (lc4.py:57-58) or letters of
   * ls47.py:11, symbol by symbol (LettersSpelled6 and LettersSpelled7 show
   * they are the two alphabets above).
   */
  function Letters(size: Size): (r: string)
    ensures |r| == size * size
  {
    seq(size * size, i requires 0 <= i < size * size => Symbol(size, i))
  }

  /** Rank undoes Symbol, so no symbol occurs twice. */
  lemma SymbolRanked(size: Size, i: nat)
    requires i < size * size
    ensures (if size == 6 then Rank6(Symbol(size, i)) else Rank7(Symbol(size, i))) == i
  {
  }

  /** Neither alphabet repeats a symbol. */
  lemma LettersDistinct(size: Size)
    ensures Distinct(Letters(size))
  {
    var r := Letters(size);
    forall i, j | 0 <= i < j < |r| ensures r[i] != r[j] {
      SymbolRanked(size, i);
      SymbolRanked(size, j);
    }
  }

  lemma LettersSpelled6()
    ensures Letters(6) == Letters6
  {
    assert forall i :: 0 <= i < 36 ==> Letters(6)[i] == Letters6[i];
  }

  lemma LettersSpelled7()
    ensures Letters(7) == Letters7
  {
    assert forall i :: 0 <= i < 49 ==> Letters(7)[i] == Letters7[i];
  }

  // ---------------------------------------------------------------------------
  // Arithmetic on cell indices

  /** The flat index of the cell (row, col) and its decomposition. */
  lemma CellIndex(size: Size, row: nat, col: nat)
    requires row < size && col < size
    ensures row * size + col < size * size
    ensures (row * size + col) / size == row && (row * size + col) % size == col
  {
    if size == 6 {} else {}
  }

  /** Every flat index below size*size is a cell. */
  lemma IndexCell(size: Size, k: nat)
    requires k < size * size
    ensures k / size < size && k == (k / size) * size + k % size
  {
    if size == 6 {} else {}
  }

  /** Row `row` occupies the flat indices [row * size, row * size + size). */
  lemma RowSpan(size: Size, row: nat)
    requires row < size
    ensures size * row + size == size * (row + 1) <= size * size
    ensures size * row == row * size
  {
    if size == 6 {} else {}
  }

  // ---------------------------------------------------------------------------
  // Lookups

  /** Python's str.find: the first index of c in s, or -1. */
  function Find(s: string, c: char): (r: int)
    ensures -1 <= r < |s|
    ensures r == -1 <==> c !in s
    ensures 0 <= r ==> s[r] == c && c !in s[..r]
  {
    if s == [] then -1
    else if s[0] == c then 0
    else
      var k := Find(s[1..], c);
      assert s[1..][..k + 1] == s[1..k + 2] by { if k >= 0 {} }
      if k < 0 then -1 else k + 1
  }

  /** The number of occurrences of c in s (Python's s.count(c)). */
  function Count(s: string, c: char): (r: nat)
    ensures r <= |s|
    ensures r == 0 <==> c !in s
  {
    if s == [] then 0
    else
      assert s == [s[0]] + s[1..];
      (if s[0] == c then 1 else 0) + Count(s[1..], c)
  }

  /** A symbol of a distinct string occurs in it once or not at all. */
  lemma {:induction false} DistinctCount(s: string, c: char)
    requires Distinct(s)
    ensures Count(s, c) == if c in s then 1 else 0
  {
    if s != [] {
      assert Distinct(s[1..]) by {
        forall i, j | 0 <= i < j < |s[1..]| ensures s[1..][i] != s[1..][j] {
          assert s[1..][i] == s[i + 1] && s[1..][j] == s[j + 1];
        }
      }
      DistinctCount(s[1..], c);
      assert c in s <==> c == s[0] || c in s[1..] by {
        assert s == [s[0]] + s[1..];
      }
      assert s[0] !in s[1..] by {
        forall k | 0 <= k < |s[1..]| ensures s[1..][k] != s[0] {
          assert s[1..][k] == s[k + 1];
        }
      }
    }
  }

  /**
   * find_ix: the fixed position of a symbol in the canonical alphabet,
   * letters[x] being at (x / size, x % size) (lc4.py:98-102, ls47.py:30-35).
   * The tile table has one entry per alphabet index, and a symbol matching
   * anything but exactly one entry is rejected.
   */
  function FindIx(size: Size, c: char): (r: Result<Pos>)
    ensures r.Ok? <==> c in Letters(size)
    ensures r.Err? ==> r.error == NotInAlphabet(c)
    ensures r.Ok? ==> InRange(size, r.value)
                      && Letters(size)[r.value.row * size + r.value.col] == c
  {
    var letters := Letters(size);
    LettersDistinct(size);
    DistinctCount(letters, c);
    if Count(letters, c) != 1 then Err(NotInAlphabet(c))
    else
      var x := Find(letters, c);
      IndexCell(size, x);
      Ok(Pos(x / size, x % size))
  }

  /**
   * find_pos: the position of the first occurrence of c in the key; it fails
   * exactly when c is not among the first size*size symbols of the key
   * (lc4.py:105-109, ls47.py:38-42).
   */
  function FindPos(size: Size, key: string, c: char): (r: Result<Pos>)
    ensures r.Ok? <==> c in key[..if |key| < size * size then |key| else size * size]
    ensures r.Err? ==> r.error == NotInKey(c)
    ensures r.Ok? ==> InRange(size, r.value) && r.value.row * size + r.value.col < |key|
                      && key[r.value.row * size + r.value.col] == c
                      && c !in key[..r.value.row * size + r.value.col]
  {
    var p := Find(key, c);
    var n := if |key| < size * size then |key| else size * size;
    assert c in key[..n] <==> 0 <= p < n by {
      if 0 <= p < n { assert key[..n][p] == c; }
      if c in key[..n] {
        var k :| 0 <= k < n && key[..n][k] == c;
        assert key[k] == c;
      }
    }
    if !(0 <= p < size * size) then Err(NotInKey(c))
    else
      IndexCell(size, p);
      Ok(Pos(p / size, p % size))
  }

  /** find_at_pos: the symbol on the tile at position q (lc4.py:120-121, ls47.py:53-54). */
  function FindAtPos(size: Size, key: string, q: Pos): (r: char)
    requires |key| == size * size && InRange(size, q)
    ensures r in key
  {
    CellIndex(size, q.row, q.col);
    key[q.col + q.row * size]
  }

  /** add_pos: componentwise addition modulo size (lc4.py:112-113, ls47.py:45-46). */
  function AddPos(size: Size, a: Pos, b: Pos): (r: Pos)
    ensures InRange(size, r)
  {
    Pos((a.row + b.row) % size, (a.col + b.col) % size)
  }

  /** sub_pos: componentwise subtraction modulo size (lc4.py:116-117, ls47.py:49-50). */
  function SubPos(size: Size, a: Pos, b: Pos): (r: Pos)
    ensures InRange(size, r)
  {
    Pos((a.row - b.row) % size, (a.col - b.col) % size)
  }

  /** Subtracting what was added gives back an in-range position. */
  lemma SubAddPos(size: Size, a: Pos, b: Pos)
    requires InRange(size, a)
    ensures SubPos(size, AddPos(size, a, b), b) == a
  {
    if size == 6 {} else {}
  }

  /** Adding what was subtracted gives back an in-range position. */
  lemma AddSubPos(size: Size, a: Pos, b: Pos)
    requires InRange(size, a)
    ensures AddPos(size, SubPos(size, a, b), b) == a
  {
    if size == 6 {} else {}
  }

  /** The symbol found at the position find_pos reports is the symbol looked up. */
  lemma FindPosThenAt(size: Size, key: string, c: char)
    requires |key| == size * size && c in key
    ensures FindPos(size, key, c).Ok?
    ensures FindAtPos(size, key, FindPos(size, key, c).value) == c
  {
    assert key[..size * size] == key;
  }

  /** In a key without repeats, find_pos finds the tile the symbol was read from. */
  lemma FindAtThenPos(size: Size, key: string, q: Pos)
    requires |key| == size * size && Distinct(key) && InRange(size, q)
    ensures FindPos(size, key, FindAtPos(size, key, q)) == Ok(q)
  {
    CellIndex(size, q.row, q.col);
    var k := q.row * size + q.col;
    var c := key[k];
    assert key[..size * size] == key;
    var r := FindPos(size, key, c);
    var p := r.value.row * size + r.value.col;
    assert key[p] == c;
    CellIndex(size, r.value.row, r.value.col);
    assert p == k;
  }

  // ---------------------------------------------------------------------------
  // Rotations
  //
  // The rotation functions promise their length and that they keep every
  // symbol; where each tile goes is stated by the lemmas that follow them,
  // so that a proof pays for a tile's whereabouts only when it asks.

  /** A cyclic shift by n inside [0, size) as Python's % computes it. */
  lemma ShiftMod(size: Size, j: nat, n: nat)
    requires j < size && n < size
    ensures (j - n) % size == if j < n then j + size - n else j - n
    ensures (j + n) % size == if j + n < size then j + n else j + n - size
  {
    if size == 6 {} else {}
  }

  /** Two cells in different rows lie in disjoint index ranges. */
  lemma RowsApart(size: Size, i: nat, j: nat, row: nat)
    requires i < size && j < size && row < size && i != row
    ensures i * size + j < size * row || size * (row + 1) <= i * size + j
  {
    if size == 6 {} else {}
  }

  /**
   * The window s[a..a+w] shifted right by n symbols, cyclically, described
   * symbol by symbol; ShiftWindowSlices shows it is the slice expression
   * s[:a] + mid[-n:] + mid[:-n] + s[a+w:] with mid = s[a:a+w].
   */
  function ShiftWindow(s: string, a: nat, w: nat, n: nat): (r: string)
    requires a + w <= |s| && n <= w
    ensures |r| == |s|
  {
    seq(|s|, k requires 0 <= k < |s| =>
      if k < a || a + w <= k then s[k]
      else if k < a + n then s[k + w - n]
      else s[k - n])
  }

  /** The shifted window is the source's slice expression. */
  lemma ShiftWindowSlices(s: string, a: nat, w: nat, n: nat)
    requires a + w <= |s| && n <= w
    ensures var mid := s[a .. a + w];
            ShiftWindow(s, a, w, n) == s[..a] + mid[w - n..] + mid[..w - n] + s[a + w..]
  {
    var mid := s[a .. a + w];
    var t := s[..a] + mid[w - n..] + mid[..w - n] + s[a + w..];
    assert |t| == |s|;
    forall k | 0 <= k < |s| ensures ShiftWindow(s, a, w, n)[k] == t[k] {
      if k < a {
      } else if k < a + n {
        assert t[k] == mid[w - n..][k - a];
      } else if k < a + w {
        assert t[k] == mid[..w - n][k - a - n];
      } else {
        assert t[k] == s[a + w..][k - a - w];
      }
    }
  }

  /** The shifted window holds the same symbols. */
  lemma ShiftWindowMultiset(s: string, a: nat, w: nat, n: nat)
    requires a + w <= |s| && n <= w
    ensures multiset(ShiftWindow(s, a, w, n)) == multiset(s)
  {
    var mid := s[a .. a + w];
    ShiftWindowSlices(s, a, w, n);
    assert s == s[..a] + mid + s[a + w..];
    assert mid == mid[..w - n] + mid[w - n..];
  }

  /** Where each symbol of the shifted window comes from. */
  lemma ShiftWindowAt(s: string, a: nat, w: nat, n: nat, k: nat)
    requires a + w <= |s| && n <= w && k < |s|
    ensures ShiftWindow(s, a, w, n)[k]
            == if k < a || a + w <= k then s[k]
               else if k < a + n then s[k + w - n]
               else s[k - n]
  {
  }

  /**
   * rotate_right: shifts row `row` right by n tiles, cyclically
   * (lc4.py:124-126). For n in [1, size) the source's mid[-n:] + mid[:-n] is
   * mid[size - n..] + mid[..size - n]; for n == 0 it is mid + "", the same row.
   */
  function RotateRight(size: Size, key: string, row: nat, n: nat): (r: string)
    requires |key| == size * size && row < size && n < size
    ensures |r| == |key|
  {
    RowSpan(size, row);
    ShiftWindow(key, size * row, size, n)
  }

  /** rotate_right keeps every symbol. */
  lemma RotateRightMultiset(size: Size, key: string, row: nat, n: nat)
    requires |key| == size * size && row < size && n < size
    ensures multiset(RotateRight(size, key, row, n)) == multiset(key)
  {
    RowSpan(size, row);
    ShiftWindowMultiset(key, size * row, size, n);
  }

  /** One tile of the rotated row: (row, j) now holds what (row, j - n) held. */
  lemma RotateRightCell(size: Size, key: string, row: nat, n: nat, j: nat)
    requires |key| == size * size && row < size && n < size && j < size
    ensures FindAtPos(size, RotateRight(size, key, row, n), Pos(row, j))
            == FindAtPos(size, key, Pos(row, (j - n) % size))
  {
    RowSpan(size, row);
    CellIndex(size, row, j);
    CellIndex(size, row, (j - n) % size);
    ShiftRowAt(size, key, row, n, j);
  }

  /** The flat-index form of RotateRightCell. */
  lemma ShiftRowAt(size: Size, key: string, row: nat, n: nat, j: nat)
    requires |key| == size * size && row < size && n < size && j < size
    ensures size * row + size <= |key| && row * size + j < |key| && row * size + (j - n) % size < |key|
    ensures ShiftWindow(key, size * row, size, n)[row * size + j] == key[row * size + (j - n) % size]
  {
    var k, j' := row * size + j, (j - n) % size;
    RowSpan(size, row);
    CellIndex(size, row, j);
    CellIndex(size, row, j');
    ShiftMod(size, j, n);
    ShiftWindowAt(key, size * row, size, n, k);
    if j < n {
      assert k + size - n == row * size + j';
    } else {
      assert k - n == row * size + j';
    }
  }

  /** One tile outside the rotated row: unchanged. */
  lemma RotateRightElsewhere(size: Size, key: string, row: nat, n: nat, i: nat, j: nat)
    requires |key| == size * size && row < size && n < size && i < size && j < size && i != row
    ensures FindAtPos(size, RotateRight(size, key, row, n), Pos(i, j)) == FindAtPos(size, key, Pos(i, j))
  {
    RowSpan(size, row);
    CellIndex(size, i, j);
    ShiftWindowAt(key, size * row, size, n, i * size + j);
    RowsApart(size, i, j, row);
  }

  /**
   * rotate_right moves every tile of row `row` n places to the right,
   * wrapping around, and leaves every other row as it was.
   */
  lemma RotateRightCells(size: Size, key: string, row: nat, n: nat)
    requires |key| == size * size && row < size && n < size
    ensures forall j :: 0 <= j < size ==>
              FindAtPos(size, RotateRight(size, key, row, n), Pos(row, j))
              == FindAtPos(size, key, Pos(row, (j - n) % size))
    ensures forall i, j :: 0 <= i < size && 0 <= j < size && i != row ==>
              FindAtPos(size, RotateRight(size, key, row, n), Pos(i, j))
              == FindAtPos(size, key, Pos(i, j))
  {
    forall j | 0 <= j < size
      ensures FindAtPos(size, RotateRight(size, key, row, n), Pos(row, j))
              == FindAtPos(size, key, Pos(row, (j - n) % size))
    {
      RotateRightCell(size, key, row, n, j);
    }
    forall i, j | 0 <= i < size && 0 <= j < size && i != row
      ensures FindAtPos(size, RotateRight(size, key, row, n), Pos(i, j))
              == FindAtPos(size, key, Pos(i, j))
    {
      RotateRightElsewhere(size, key, row, n, i, j);
    }
  }

  /** Row i of a key: lines[i] = key[i*size : (i+1)*size]. */
  function Line(size: Size, key: string, i: nat): (r: string)
    requires |key| == size * size && i < size
    ensures |r| == size
  {
    RowSpan(size, i);
    key[i * size .. (i + 1) * size]
  }

  lemma LineAt(size: Size, key: string, i: nat, j: nat)
    requires |key| == size * size && i < size && j < size
    ensures Line(size, key, i)[j] == FindAtPos(size, key, Pos(i, j))
  {
    RowSpan(size, i);
    CellIndex(size, i, j);
  }

  /** lines = [key[i*size : (i+1)*size] for i in range(size)] */
  function Lines(size: Size, key: string): (r: seq<string>)
    requires |key| == size * size
    ensures |r| == size
  {
    seq(size, i requires 0 <= i < size => Line(size, key, i))
  }

  lemma LinesShape(size: Size, key: string)
    requires |key| == size * size
    ensures forall i :: 0 <= i < size ==> Lines(size, key)[i] == Line(size, key, i)
    ensures forall i :: 0 <= i < size ==> |Lines(size, key)[i]| == size
  {
  }

  /** ''.join(rows) */
  function Concat(rows: seq<string>): string {
    if rows == [] then "" else rows[0] + Concat(rows[1..])
  }

  /** In a join of rows of equal width w, cell (i, j) sits at flat index i * w + j. */
  lemma {:induction false} ConcatAt(rows: seq<string>, w: nat, i: nat, j: nat)
    requires forall k :: 0 <= k < |rows| ==> |rows[k]| == w
    requires i < |rows| && j < w
    ensures |Concat(rows)| == |rows| * w
    ensures i * w + j < |Concat(rows)| && Concat(rows)[i * w + j] == rows[i][j]
  {
    ConcatLength(rows, w);
    if i > 0 {
      ConcatAt(rows[1..], w, i - 1, j);
      assert (i - 1) * w + j + w == i * w + j;
    }
  }

  lemma {:induction false} ConcatLength(rows: seq<string>, w: nat)
    requires forall k :: 0 <= k < |rows| ==> |rows[k]| == w
    ensures |Concat(rows)| == |rows| * w
  {
    if rows != [] {
      ConcatLength(rows[1..], w);
      assert |rows| * w == w + (|rows| - 1) * w;
    }
  }

  /** Multiset union cancels. */
  lemma Cancel<T>(a: multiset<T>, b: multiset<T>, c: multiset<T>)
    requires a + c == b + c
    ensures a == b
  {
    forall x ensures a[x] == b[x] {
      assert (a + c)[x] == (b + c)[x];
    }
  }

  /** Two exchanges side by side make one exchange. */
  lemma ExchangeBoth<T>(x': multiset<T>, y': multiset<T>, u: multiset<T>, v: multiset<T>,
                        x: multiset<T>, y: multiset<T>, p: multiset<T>, q: multiset<T>)
    requires x' + u == x + p && y' + v == y + q
    ensures (x' + y') + (u + v) == (x + y) + (p + q)
  {
    forall e ensures ((x' + y') + (u + v))[e] == ((x + y) + (p + q))[e] {
      assert (x' + u)[e] == (x + p)[e];
      assert (y' + v)[e] == (y + q)[e];
    }
  }

  /** The join of some rows is the first row followed by the join of the rest. */
  lemma ConcatCons(rows: seq<string>)
    requires rows != []
    ensures multiset(Concat(rows)) == multiset(rows[0]) + multiset(Concat(rows[1..]))
  {
  }

  lemma SplitFirst(s: string)
    requires s != []
    ensures multiset(s) == multiset{s[0]} + multiset(s[1..])
  {
    assert s == [s[0]] + s[1..];
  }

  /**
   * Replacing one symbol in every row: if each new row differs from the old
   * one by giving up old[i] for new[i], the joins differ the same way.
   */
  lemma {:induction false} ConcatExchange(rows: seq<string>, rows': seq<string>, olds: string, news: string)
    requires |rows| == |rows'| == |olds| == |news|
    requires forall i :: 0 <= i < |rows| ==>
               multiset(rows'[i]) + multiset{olds[i]} == multiset(rows[i]) + multiset{news[i]}
    ensures multiset(Concat(rows')) + multiset(olds) == multiset(Concat(rows)) + multiset(news)
  {
    if rows != [] {
      assert forall i :: 0 <= i < |rows| - 1 ==>
               multiset(rows'[1..][i]) + multiset{olds[1..][i]} == multiset(rows[1..][i]) + multiset{news[1..][i]} by {
        forall i | 0 <= i < |rows| - 1
          ensures multiset(rows'[1..][i]) + multiset{olds[1..][i]} == multiset(rows[1..][i]) + multiset{news[1..][i]}
        {
          assert rows'[1..][i] == rows'[i + 1] && rows[1..][i] == rows[i + 1];
          assert olds[1..][i] == olds[i + 1] && news[1..][i] == news[i + 1];
        }
      }
      ConcatExchange(rows[1..], rows'[1..], olds[1..], news[1..]);
      ConcatCons(rows);
      ConcatCons(rows');
      SplitFirst(olds);
      SplitFirst(news);
      assert multiset(rows'[0]) + multiset{olds[0]} == multiset(rows[0]) + multiset{news[0]};
      ExchangeBoth(multiset(rows'[0]), multiset(Concat(rows'[1..])), multiset{olds[0]}, multiset(olds[1..]),
                   multiset(rows[0]), multiset(Concat(rows[1..])), multiset{news[0]}, multiset(news[1..]));
    }
  }

  /** The symbols of column `col`, top to bottom: mids = [l[col] for l in lines]. */
  function Column(size: Size, key: string, col: nat): (r: string)
    requires |key| == size * size && col < size
    ensures |r| == size
  {
    seq(size, i requires 0 <= i < size => Line(size, key, i)[col])
  }

  lemma ColumnAt(size: Size, key: string, col: nat, i: nat)
    requires |key| == size * size && col < size && i < size
    ensures Column(size, key, col)[i] == FindAtPos(size, key, Pos(i, col))
  {
    LineAt(size, key, i, col);
  }

  /** lefts[i] + mids[i] + rights[i] for every row, with column `col` now `column`. */
  function Spliced(size: Size, key: string, col: nat, column: string): (r: seq<string>)
    requires |key| == size * size && col < size && |column| == size
    ensures |r| == size
  {
    var lines := Lines(size, key);
    LinesShape(size, key);
    seq(size, i requires 0 <= i < size => lines[i][..col] + [column[i]] + lines[i][col + 1..])
  }

  lemma SplicedShape(size: Size, key: string, col: nat, column: string)
    requires |key| == size * size && col < size && |column| == size
    ensures forall k :: 0 <= k < size ==> |Spliced(size, key, col, column)[k]| == size
  {
    LinesShape(size, key);
  }

  /** One cell of the spliced rows, joined. */
  lemma SplicedAt(size: Size, key: string, col: nat, column: string, i: nat, j: nat)
    requires |key| == size * size && col < size && |column| == size && i < size && j < size
    ensures |Concat(Spliced(size, key, col, column))| == size * size
    ensures FindAtPos(size, Concat(Spliced(size, key, col, column)), Pos(i, j))
            == if j == col then column[i] else FindAtPos(size, key, Pos(i, j))
  {
    var rows := Spliced(size, key, col, column);
    SplicedShape(size, key, col, column);
    ConcatAt(rows, size, i, j);
    CellIndex(size, i, j);
    LinesShape(size, key);
    var line := Lines(size, key)[i];
    assert rows[i] == line[..col] + [column[i]] + line[col + 1..];
    LineAt(size, key, i, j);
  }

  /** Overwriting one symbol of a string trades it for the new one. */
  lemma Exchange(line: string, col: nat, x: char)
    requires col < |line|
    ensures multiset(line[..col] + [x] + line[col + 1..]) + multiset{line[col]}
            == multiset(line) + multiset{x}
  {
    assert line == line[..col] + [line[col]] + line[col + 1..];
  }

  /** The spliced rows, joined, trade the old column for the new one. */
  lemma SplicedMultiset(size: Size, key: string, col: nat, column: string)
    requires |key| == size * size && col < size && |column| == size
    ensures multiset(Concat(Spliced(size, key, col, column))) + multiset(Column(size, key, col))
            == multiset(key) + multiset(column)
  {
    var lines := Lines(size, key);
    var rows := Spliced(size, key, col, column);
    var mids := Column(size, key, col);
    LinesShape(size, key);
    JoinLines(size, key);
    forall i | 0 <= i < size
      ensures multiset(rows[i]) + multiset{mids[i]} == multiset(lines[i]) + multiset{column[i]}
    {
      assert mids[i] == lines[i][col];
      Exchange(lines[i], col, column[i]);
    }
    ConcatExchange(lines, rows, mids, column);
  }

  /**
   * The key with column `col` replaced by `column`:
   * ''.join(lefts[i] + mids[i] + rights[i] for i in range(size)).
   */
  function WithColumn(size: Size, key: string, col: nat, column: string): (r: string)
    requires |key| == size * size && col < size && |column| == size
    ensures |r| == |key|
  {
    SplicedAt(size, key, col, column, 0, 0);
    Concat(Spliced(size, key, col, column))
  }

  /** Column `col` of the result is `column`; every other tile is unchanged. */
  lemma WithColumnAt(size: Size, key: string, col: nat, column: string, i: nat, j: nat)
    requires |key| == size * size && col < size && |column| == size && i < size && j < size
    ensures FindAtPos(size, WithColumn(size, key, col, column), Pos(i, j))
            == if j == col then column[i] else FindAtPos(size, key, Pos(i, j))
  {
    SplicedAt(size, key, col, column, i, j);
  }

  /** Joining the rows of a key gives the key back. */
  lemma JoinLines(size: Size, key: string)
    requires |key| == size * size
    ensures Concat(Lines(size, key)) == key
  {
    var lines := Lines(size, key);
    var r := Concat(lines);
    LinesShape(size, key);
    ConcatLength(lines, size);
    forall k | 0 <= k < size * size ensures r[k] == key[k] {
      IndexCell(size, k);
      ConcatAt(lines, size, k / size, k % size);
      LineAt(size, key, k / size, k % size);
      CellIndex(size, k / size, k % size);
    }
  }

  /**
   * rotate_down: shifts column `col` down by n tiles, cyclically
   * (lc4.py:129-135): the column becomes mids[-n:] + mids[:-n], the same
   * cyclic shift that rotate_right applies to a row.
   */
  function RotateDown(size: Size, key: string, col: nat, n: nat): (r: string)
    requires |key| == size * size && col < size && n < size
    ensures |r| == |key|
  {
    var mids := Column(size, key, col);
    WithColumn(size, key, col, ShiftWindow(mids, 0, size, n))
  }

  /** rotate_down keeps every symbol. */
  lemma RotateDownMultiset(size: Size, key: string, col: nat, n: nat)
    requires |key| == size * size && col < size && n < size
    ensures multiset(RotateDown(size, key, col, n)) == multiset(key)
  {
    var mids := Column(size, key, col);
    var shifted := ShiftWindow(mids, 0, size, n);
    var r := WithColumn(size, key, col, shifted);
    SplicedMultiset(size, key, col, shifted);
    ShiftWindowMultiset(mids, 0, size, n);
    Cancel(multiset(r), multiset(key), multiset(mids));
  }

  /** One tile of the rotated column: (i, col) now holds what (i - n, col) held. */
  lemma RotateDownCell(size: Size, key: string, col: nat, n: nat, i: nat)
    requires |key| == size * size && col < size && n < size && i < size
    ensures FindAtPos(size, RotateDown(size, key, col, n), Pos(i, col))
            == FindAtPos(size, key, Pos((i - n) % size, col))
  {
    var mids := Column(size, key, col);
    WithColumnAt(size, key, col, ShiftWindow(mids, 0, size, n), i, col);
    ShiftWindowAt(mids, 0, size, n, i);
    ShiftMod(size, i, n);
    ColumnAt(size, key, col, (i - n) % size);
  }

  /** One tile outside the rotated column: unchanged. */
  lemma RotateDownElsewhere(size: Size, key: string, col: nat, n: nat, i: nat, j: nat)
    requires |key| == size * size && col < size && n < size && i < size && j < size && j != col
    ensures FindAtPos(size, RotateDown(size, key, col, n), Pos(i, j)) == FindAtPos(size, key, Pos(i, j))
  {
    var mids := Column(size, key, col);
    WithColumnAt(size, key, col, ShiftWindow(mids, 0, size, n), i, j);
  }

  /**
   * rotate_down moves every tile of column `col` n places down, wrapping
   * around, and leaves every other column as it was.
   */
  lemma RotateDownCells(size: Size, key: string, col: nat, n: nat)
    requires |key| == size * size && col < size && n < size
    ensures forall i :: 0 <= i < size ==>
              FindAtPos(size, RotateDown(size, key, col, n), Pos(i, col))
              == FindAtPos(size, key, Pos((i - n) % size, col))
    ensures forall i, j :: 0 <= i < size && 0 <= j < size && j != col ==>
              FindAtPos(size, RotateDown(size, key, col, n), Pos(i, j))
              == FindAtPos(size, key, Pos(i, j))
  {
    forall i | 0 <= i < size
      ensures FindAtPos(size, RotateDown(size, key, col, n), Pos(i, col))
              == FindAtPos(size, key, Pos((i - n) % size, col))
    {
      RotateDownCell(size, key, col, n, i);
    }
    forall i, j | 0 <= i < size && 0 <= j < size && j != col
      ensures FindAtPos(size, RotateDown(size, key, col, n), Pos(i, j))
              == FindAtPos(size, key, Pos(i, j))
    {
      RotateDownElsewhere(size, key, col, n, i, j);
    }
  }

  /** Two keys with the same symbol on every tile are the same key. */
  lemma SameCells(size: Size, a: string, b: string)
    requires |a| == size * size && |b| == size * size
    requires forall i, j :: 0 <= i < size && 0 <= j < size ==>
               FindAtPos(size, a, Pos(i, j)) == FindAtPos(size, b, Pos(i, j))
    ensures a == b
  {
    forall k | 0 <= k < size * size ensures a[k] == b[k] {
      IndexCell(size, k);
      var i, j := k / size, k % size;
      assert FindAtPos(size, a, Pos(i, j)) == FindAtPos(size, b, Pos(i, j));
    }
  }

  /** Shifting back by n after shifting by (size - n) % size returns to the start. */
  lemma ShiftBack(size: Size, j: nat, n: nat)
    requires j < size && n < size
    ensures (j - (size - n) % size) % size < size && ((j - (size - n) % size) % size - n) % size == j
  {
    if size == 6 {} else {}
  }

  /** Shifting back by n after shifting forward by n returns to the start. */
  lemma ShiftForthBack(size: Size, j: nat, n: nat)
    requires j < size && n < size
    ensures (j + n) % size < size && ((j + n) % size - n) % size == j
  {
    if size == 6 {} else {}
  }

  /** A shift by zero stays put. */
  lemma ShiftNone(size: Size, j: nat)
    requires j < size
    ensures (j - 0) % size == j
  {
    if size == 6 {} else {}
  }

  /** One tile after rotate_right by n and then by size - n. */
  lemma RotateRightBackCell(size: Size, key: string, row: nat, n: nat, i: nat, j: nat)
    requires |key| == size * size && row < size && n < size && i < size && j < size
    ensures FindAtPos(size, RotateRight(size, RotateRight(size, key, row, n), row, (size - n) % size), Pos(i, j))
            == FindAtPos(size, key, Pos(i, j))
  {
    var n' := (size - n) % size;
    var once := RotateRight(size, key, row, n);
    if i == row {
      var j' := (j - n') % size;
      ShiftBack(size, j, n);
      assert j' < size && (j' - n) % size == j;
      RotateRightCell(size, once, row, n', j);
      RotateRightCell(size, key, row, n, j');
    } else {
      RotateRightElsewhere(size, once, row, n', i, j);
      RotateRightElsewhere(size, key, row, n, i, j);
    }
  }

  /** rotate_right by n and then by size - n leaves the key as it was. */
  lemma RotateRightInverse(size: Size, key: string, row: nat, n: nat)
    requires |key| == size * size && row < size && n < size
    ensures RotateRight(size, RotateRight(size, key, row, n), row, (size - n) % size) == key
  {
    var twice := RotateRight(size, RotateRight(size, key, row, n), row, (size - n) % size);
    forall i, j | 0 <= i < size && 0 <= j < size
      ensures FindAtPos(size, twice, Pos(i, j)) == FindAtPos(size, key, Pos(i, j))
    {
      RotateRightBackCell(size, key, row, n, i, j);
    }
    SameCells(size, twice, key);
  }

  /** One tile after rotate_down by n and then by size - n. */
  lemma RotateDownBackCell(size: Size, key: string, col: nat, n: nat, i: nat, j: nat)
    requires |key| == size * size && col < size && n < size && i < size && j < size
    ensures FindAtPos(size, RotateDown(size, RotateDown(size, key, col, n), col, (size - n) % size), Pos(i, j))
            == FindAtPos(size, key, Pos(i, j))
  {
    if j == col {
      RotateDownBackOn(size, key, col, n, i);
    } else {
      var once := RotateDown(size, key, col, n);
      RotateDownElsewhere(size, once, col, (size - n) % size, i, j);
      RotateDownElsewhere(size, key, col, n, i, j);
    }
  }

  lemma RotateDownBackOn(size: Size, key: string, col: nat, n: nat, i: nat)
    requires |key| == size * size && col < size && n < size && i < size
    ensures FindAtPos(size, RotateDown(size, RotateDown(size, key, col, n), col, (size - n) % size), Pos(i, col))
            == FindAtPos(size, key, Pos(i, col))
  {
    var n' := (size - n) % size;
    var i' := (i - n') % size;
    ShiftBack(size, i, n);
    assert i' < size && (i' - n) % size == i;
    RotateDownCell(size, RotateDown(size, key, col, n), col, n', i);
    RotateDownCell(size, key, col, n, i');
  }

  /** rotate_down by n and then by size - n leaves the key as it was. */
  lemma RotateDownInverse(size: Size, key: string, col: nat, n: nat)
    requires |key| == size * size && col < size && n < size
    ensures RotateDown(size, RotateDown(size, key, col, n), col, (size - n) % size) == key
  {
    var twice := RotateDown(size, RotateDown(size, key, col, n), col, (size - n) % size);
    forall i, j | 0 <= i < size && 0 <= j < size
      ensures FindAtPos(size, twice, Pos(i, j)) == FindAtPos(size, key, Pos(i, j))
    {
      RotateDownBackCell(size, key, col, n, i, j);
    }
    SameCells(size, twice, key);
  }

  /** One tile after rotate_right by zero. */
  lemma RotateRightZeroCell(size: Size, key: string, k: nat, i: nat, j: nat)
    requires |key| == size * size && k < size && i < size && j < size
    ensures FindAtPos(size, RotateRight(size, key, k, 0), Pos(i, j)) == FindAtPos(size, key, Pos(i, j))
  {
    if i == k {
      ShiftNone(size, j);
      RotateRightCell(size, key, k, 0, j);
    } else {
      RotateRightElsewhere(size, key, k, 0, i, j);
    }
  }

  /** One tile after rotate_down by zero. */
  lemma RotateDownZeroCell(size: Size, key: string, k: nat, i: nat, j: nat)
    requires |key| == size * size && k < size && i < size && j < size
    ensures FindAtPos(size, RotateDown(size, key, k, 0), Pos(i, j)) == FindAtPos(size, key, Pos(i, j))
  {
    if j == k {
      ShiftNone(size, i);
      RotateDownCell(size, key, k, 0, i);
    } else {
      RotateDownElsewhere(size, key, k, 0, i, j);
    }
  }

  /** Rotating by zero tiles changes nothing. */
  lemma RotateZero(size: Size, key: string, k: nat)
    requires |key| == size * size && k < size
    ensures RotateRight(size, key, k, 0) == key
    ensures RotateDown(size, key, k, 0) == key
  {
    var right, down := RotateRight(size, key, k, 0), RotateDown(size, key, k, 0);
    forall i, j | 0 <= i < size && 0 <= j < size
      ensures FindAtPos(size, right, Pos(i, j)) == FindAtPos(size, key, Pos(i, j))
      ensures FindAtPos(size, down, Pos(i, j)) == FindAtPos(size, key, Pos(i, j))
    {
      RotateRightZeroCell(size, key, k, i, j);
      RotateDownZeroCell(size, key, k, i, j);
    }
    SameCells(size, right, key);
    SameCells(size, down, key);
  }

  /** rotate_marker_right: a marker on row `row` moves right with its tile (lc4.py:138-142). */
  function RotateMarkerRight(size: Size, m: Pos, row: nat, n: nat): (r: Pos)
    requires InRange(size, m)
    ensures InRange(size, r) && r.row == m.row
    ensures m.row != row ==> r == m
  {
    if m.row != row then Pos(m.row, m.col) else Pos(m.row, (m.col + n) % size)
  }

  /** rotate_marker_down: a marker on column `col` moves down with its tile (lc4.py:145-149). */
  function RotateMarkerDown(size: Size, m: Pos, col: nat, n: nat): (r: Pos)
    requires InRange(size, m)
    ensures InRange(size, r) && r.col == m.col
    ensures m.col != col ==> r == m
  {
    if m.col != col then Pos(m.row, m.col) else Pos((m.row + n) % size, m.col)
  }

  /** After rotate_right the moved marker still sits on the tile it marked. */
  lemma MarkerFollowsRight(size: Size, key: string, m: Pos, row: nat, n: nat)
    requires |key| == size * size && InRange(size, m) && row < size && n < size
    ensures FindAtPos(size, RotateRight(size, key, row, n), RotateMarkerRight(size, m, row, n))
            == FindAtPos(size, key, m)
  {
    if m.row == row {
      var j := (m.col + n) % size;
      ShiftForthBack(size, m.col, n);
      assert j < size && (j - n) % size == m.col;
      RotateRightCell(size, key, row, n, j);
    } else {
      RotateRightElsewhere(size, key, row, n, m.row, m.col);
    }
  }

  /** After rotate_down the moved marker still sits on the tile it marked. */
  lemma MarkerFollowsDown(size: Size, key: string, m: Pos, col: nat, n: nat)
    requires |key| == size * size && InRange(size, m) && col < size && n < size
    ensures FindAtPos(size, RotateDown(size, key, col, n), RotateMarkerDown(size, m, col, n))
            == FindAtPos(size, key, m)
  {
    if m.col == col {
      var i := (m.row + n) % size;
      ShiftForthBack(size, m.row, n);
      assert i < size && (i - n) % size == m.row;
      RotateDownCell(size, key, col, n, i);
    } else {
      RotateDownElsewhere(size, key, col, n, m.row, m.col);
    }
  }

  // ---------------------------------------------------------------------------
  // Permutations of the alphabet

  /** The multiplicity of a symbol is its number of occurrences. */
  lemma {:induction false} MultisetCount(s: string, c: char)
    ensures multiset(s)[c] == Count(s, c)
  {
    if s != [] {
      MultisetCount(s[1..], c);
      assert s == [s[0]] + s[1..];
    }
  }

  /** Two equal symbols at different indices occur at least twice. */
  lemma {:induction false} RepeatCount(s: string, i: nat, j: nat)
    requires i < j < |s| && s[i] == s[j]
    ensures Count(s, s[i]) >= 2
  {
    if i > 0 {
      RepeatCount(s[1..], i - 1, j - 1);
    } else {
      assert s[j] in s[1..] by { assert s[1..][j - 1] == s[j]; }
      MultisetCount(s[1..], s[j]);
    }
  }

  /** A permutation has each symbol exactly as often as the original (Python's s.count). */
  lemma PermutationCount(a: string, b: string, c: char)
    requires IsPermutation(a, b)
    ensures Count(a, c) == Count(b, c)
  {
    MultisetCount(a, c);
    MultisetCount(b, c);
  }

  /** Rearranging a permutation of the alphabet gives a permutation of the alphabet. */
  lemma PermutationKept(a: string, b: string, letters: string)
    requires multiset(a) == multiset(b) && IsPermutation(b, letters)
    ensures IsPermutation(a, letters)
  {
  }

  /** A permutation of a repetition-free alphabet has its length, its symbols and no repeats. */
  lemma PermutationFacts(key: string, letters: string)
    requires IsPermutation(key, letters) && Distinct(letters)
    ensures |key| == |letters| && Distinct(key)
    ensures forall c :: c in key <==> c in letters
  {
    assert |multiset(key)| == |multiset(letters)|;
    forall c ensures c in key <==> c in letters {
      assert c in key <==> c in multiset(key);
      assert c in letters <==> c in multiset(letters);
    }
    forall i, j | 0 <= i < j < |key| ensures key[i] != key[j] {
      if key[i] == key[j] {
        RepeatCount(key, i, j);
        MultisetCount(key, key[i]);
        MultisetCount(letters, key[i]);
        DistinctCount(letters, key[i]);
      }
    }
  }

  /** A key that is a permutation of the alphabet fills the grid without repeats. */
  lemma KeyFacts(size: Size, key: string)
    requires IsPermutation(key, Letters(size))
    ensures |key| == size * size && Distinct(key)
  {
    LettersDistinct(size);
    PermutationFacts(key, Letters(size));
  }

  /** A key that is a permutation of the alphabet holds exactly the alphabet's symbols. */
  lemma KeySymbol(size: Size, key: string, c: char)
    requires IsPermutation(key, Letters(size))
    ensures |key| == size * size && Distinct(key)
    ensures c in key <==> c in Letters(size)
    ensures FindPos(size, key, c).Ok? <==> c in Letters(size)
  {
    LettersDistinct(size);
    PermutationFacts(key, Letters(size));
    assert key[..size * size] == key;
  }

  /** find_ix maps letters[x] to (x // size, x % size). */
  lemma FindIxAt(size: Size, x: nat)
    requires x < size * size
    ensures FindIx(size, Letters(size)[x]) == Ok(Pos(x / size, x % size))
  {
    var letters := Letters(size);
    assert letters[x] in letters;
    var r := FindIx(size, letters[x]);
    var y := r.value.row * size + r.value.col;
    assert letters[y] == letters[x];
    LettersDistinct(size);
    assert y == x;
    IndexCell(size, x);
    CellIndex(size, r.value.row, r.value.col);
  }

}
