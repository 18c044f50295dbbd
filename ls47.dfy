/**
 * ls47.py: the LS47 program, a 7x7 grid whose encrypt and decrypt take the
 * key as an argument, check it first and start from marker (0, 0); the
 * marker never follows the rotated tiles. Its own rotate_right and
 * rotate_down accept any integer shift.
 */
module Ls47 {
  import opened Grid
  import opened Engine

  /** padding_size: the number of random symbols encrypt_pad puts in front. */
  const PaddingSize: nat := 10

  /** The grid of ls47.py: size 7, and mp is never moved by a rotation. */
  const Cfg: Config := Config(7, MarkerStays)

  // ---------------------------------------------------------------------------
  // check_key (ls47.py:16-27)

  /**
   * The loop over the key as a reference: it raises at the first symbol
   * that is outside the alphabet ("not in LS47") or that occurred before
   * ("duplicated in key").
   */
  function Scan(key: string): (r: Result<()>)
    ensures r.Err? ==> (r.error.NotInAlphabet? && r.error.symbol in key && r.error.symbol !in Letters(7))
                       || (r.error.DuplicatedInKey? && r.error.symbol in key && r.error.symbol in Letters(7))
    decreases |key|
  {
    if key == [] then Ok(())
    else
      var ok :- Scan(key[..|key| - 1]);
      var c := key[|key| - 1];
      if c !in Letters(7) then Err(NotInAlphabet(c))
      else if c in key[..|key| - 1] then Err(DuplicatedInKey(c))
      else Ok(())
  }

  /** check_key: the length test first, then the scan. */
  function KeyVerdict(key: string): (r: Result<()>)
    ensures |key| != 49 ==> r == Err(WrongKeySize)
  {
    if |key| != |Letters(7)| then Err(WrongKeySize) else Scan(key)
  }

  /** The scan passes exactly over keys of alphabet symbols without repeats. */
  lemma {:induction false} ScanClean(key: string)
    ensures Scan(key).Ok? <==> OverAlphabet(7, key) && Distinct(key)
    decreases |key|
  {
    if key != [] {
      var k', c := key[..|key| - 1], key[|key| - 1];
      ScanClean(k');
      SnocFacts(key);
    }
  }

  /** A string is its front and its last symbol: alphabet and repeats, symbol by symbol. */
  lemma SnocFacts(key: string)
    requires key != []
    ensures var k', c := key[..|key| - 1], key[|key| - 1];
            (OverAlphabet(7, key) <==> OverAlphabet(7, k') && c in Letters(7))
            && (Distinct(key) <==> Distinct(k') && c !in k')
  {
    var k', c := key[..|key| - 1], key[|key| - 1];
    if c in k' {
      var i :| 0 <= i < |k'| && k'[i] == c;
      assert key[i] == key[|key| - 1];
    }
    if Distinct(k') && c !in k' {
      forall i, j | 0 <= i < j < |key| ensures key[i] != key[j] {
        if j < |key| - 1 {
          assert key[i] == k'[i] && key[j] == k'[j];
        } else {
          assert key[i] == k'[i];
        }
      }
    }
    if OverAlphabet(7, k') && c in Letters(7) {
      forall i | 0 <= i < |key| ensures key[i] in Letters(7) {
        if i < |k'| { assert key[i] == k'[i]; }
      }
    }
    assert OverAlphabet(7, key) ==> OverAlphabet(7, k') by {
      forall i | 0 <= i < |k'| ensures k'[i] == key[i] { }
    }
  }

  /** A sub-multiset as large as the whole is the whole. */
  lemma SubMultisetEqual(a: multiset<char>, b: multiset<char>)
    requires a <= b && |a| == |b|
    ensures a == b
  {
    var d := b - a;
    assert b == a + d;
    assert |d| == 0;
  }

  /**
   * check_key accepts exactly the permutations of the alphabet: 49 symbols,
   * all in the alphabet and none repeated, can only be the alphabet rearranged.
   */
  lemma KeyVerdictPermutation(key: string)
    ensures KeyVerdict(key).Ok? <==> IsPermutation(key, Letters(7))
  {
    var letters := Letters(7);
    LettersDistinct(7);
    ScanClean(key);
    if IsPermutation(key, letters) {
      PermutationFacts(key, letters);
      forall i | 0 <= i < |key| ensures key[i] in letters {
        assert key[i] in key;
      }
    }
    if KeyVerdict(key).Ok? {
      forall c ensures multiset(key)[c] <= multiset(letters)[c] {
        MultisetCount(key, c);
        MultisetCount(letters, c);
        DistinctCount(key, c);
        DistinctCount(letters, c);
        if c in key {
          var i :| 0 <= i < |key| && key[i] == c;
        }
      }
      SubMultisetEqual(multiset(key), multiset(letters));
    }
  }

  /**
   * check_key as the source writes it: cnts maps every alphabet symbol to
   * 0, then the loop over the key counts each symbol, raising at one that
   * has no entry or whose count passes 1.
   */
  method CheckKey(key: string) returns (r: Result<()>)
    ensures r == KeyVerdict(key)
  {
    var letters := Letters(7);
    if |key| != |letters| {
      return Err(WrongKeySize);
    }
    var cnts: map<char, nat> := map[];
    for j := 0 to |letters|
      invariant forall c :: c in cnts <==> c in letters[..j]
      invariant forall c :: c in cnts ==> cnts[c] == 0
    {
      TakeNext(letters, j);
      cnts := cnts[letters[j] := 0];
    }
    PrefixWhole(letters, |letters|);
    for t := 0 to |key|
      invariant Scan(key[..t]) == Ok(())
      invariant forall c :: c in cnts <==> c in letters
      invariant forall c :: c in cnts ==> cnts[c] == if c in key[..t] then 1 else 0
    {
      var c := key[t];
      TakeNext(key, t);
      if c !in cnts {
        ScanFails(key, t + 1);
        return Err(NotInAlphabet(c));
      }
      cnts := cnts[c := cnts[c] + 1];
      if cnts[c] > 1 {
        ScanFails(key, t + 1);
        return Err(DuplicatedInKey(c));
      }
    }
    PrefixWhole(key, |key|);
    return Ok(());
  }

  /**
   * check_key raises at the first offending symbol of a 49-symbol key: the
   * first that is outside the alphabet or repeats an earlier one.
   */
  lemma KeyVerdictFirst(key: string, t: nat)
    requires |key| == 49 && t < |key|
    requires OverAlphabet(7, key[..t]) && Distinct(key[..t])
    requires key[t] !in Letters(7) || key[t] in key[..t]
    ensures KeyVerdict(key) == Err(if key[t] !in Letters(7) then NotInAlphabet(key[t]) else DuplicatedInKey(key[t]))
  {
    ScanClean(key[..t]);
    TakeNext(key, t);
    ScanFails(key, t + 1);
  }

  /** Once a scan has failed, scanning further symbols keeps its error. */
  lemma {:induction false} ScanFails(key: string, n: nat)
    requires 0 < n <= |key| && Scan(key[..n]).Err?
    ensures Scan(key) == Scan(key[..n])
    decreases |key| - n
  {
    if n < |key| {
      TakeNext(key, n);
      assert key[..n + 1][..n] == key[..n];
      ScanFails(key, n + 1);
    } else {
      PrefixWhole(key, n);
    }
  }

  // ---------------------------------------------------------------------------
  // Rotations (ls47.py:57-70)

  /**
   * The cyclic shift ls47.py uses: a left shift by (7 - n % 7) % 7 is the
   * right shift by n % 7, mid[-n:] + mid[:-n] for n in [0, 7).
   */
  lemma LeftForRight(mid: string, n: int)
    requires |mid| == 7
    ensures var m := (7 - n % 7) % 7;
            mid[m..] + mid[..m] == mid[7 - n % 7..] + mid[..7 - n % 7]
  {
    if n % 7 == 0 {
      assert mid[0..] + mid[..0] == mid == mid[7..] + mid[..7];
    }
  }

  /** Equal middles make equal strings. */
  lemma SameMiddle(a: string, x1: string, x2: string, y1: string, y2: string, b: string)
    requires x1 + x2 == y1 + y2
    ensures a + x1 + x2 + b == a + y1 + y2 + b
  {
    assert a + x1 + x2 == a + (x1 + x2);
    assert a + y1 + y2 == a + (y1 + y2);
  }

  /**
   * rotate_right: row `row` shifted right by n tiles, cyclically, for any
   * integer n, through n = (7 - n % 7) % 7 and a left shift by that many.
   */
  function RotateRight(key: string, row: nat, n: int): (r: string)
    requires |key| == 49 && row < 7
    ensures |r| == 49
  {
    var mid := key[7 * row .. 7 * (row + 1)];
    var m := (7 - n % 7) % 7;
    key[..7 * row] + mid[m..] + mid[..m] + key[7 * (row + 1)..]
  }

  /** rotate_right by any n is the rotation of the shared model by n mod 7. */
  lemma RotateRightAny(key: string, row: nat, n: int)
    requires |key| == 49 && row < 7
    ensures RotateRight(key, row, n) == Grid.RotateRight(7, key, row, n % 7)
  {
    var a := 7 * row;
    assert 7 * (row + 1) == a + 7;
    var mid := key[a .. a + 7];
    var n' := n % 7;
    RowSpan(7, row);
    ShiftWindowSlices(key, a, 7, n');
    LeftForRight(mid, n);
    var m := (7 - n') % 7;
    SameMiddle(key[..a], mid[m..], mid[..m], mid[7 - n'..], mid[..7 - n'], key[a + 7..]);
  }

  /**
   * rotate_down: column `col` shifted down by n tiles, cyclically, for any
   * integer n: mids becomes mids[n:] + mids[:n] with n = (7 - n % 7) % 7,
   * and the rows are joined again.
   */
  function RotateDown(key: string, col: nat, n: int): (r: string)
    requires |key| == 49 && col < 7
    ensures |r| == 49
  {
    var mids := Column(7, key, col);
    var m := (7 - n % 7) % 7;
    WithColumn(7, key, col, mids[m..] + mids[..m])
  }

  /** rotate_down by any n is the rotation of the shared model by n mod 7. */
  lemma RotateDownAny(key: string, col: nat, n: int)
    requires |key| == 49 && col < 7
    ensures RotateDown(key, col, n) == Grid.RotateDown(7, key, col, n % 7)
  {
    var mids := Column(7, key, col);
    LeftForRight(mids, n);
    var n' := n % 7;
    ShiftWindowSlices(mids, 0, 7, n');
    assert mids[0 .. 0 + 7] == mids && mids[..0] == [] && mids[0 + 7..] == [];
    assert ShiftWindow(mids, 0, 7, n') == [] + mids[7 - n'..] + mids[..7 - n'] + [];
    assert [] + mids[7 - n'..] + mids[..7 - n'] + [] == mids[7 - n'..] + mids[..7 - n'];
  }

  /**
   * rotate_right for any integer n keeps every symbol, moves each tile of
   * row `row` n mod 7 places to the right, wrapping around, and leaves the
   * other rows as they were.
   */
  lemma RotateRightTiles(key: string, row: nat, n: int)
    requires |key| == 49 && row < 7
    ensures multiset(RotateRight(key, row, n)) == multiset(key)
    ensures forall j :: 0 <= j < 7 ==>
              FindAtPos(7, RotateRight(key, row, n), Pos(row, j)) == FindAtPos(7, key, Pos(row, (j - n % 7) % 7))
    ensures forall i, j :: 0 <= i < 7 && 0 <= j < 7 && i != row ==>
              FindAtPos(7, RotateRight(key, row, n), Pos(i, j)) == FindAtPos(7, key, Pos(i, j))
  {
    RotateRightAny(key, row, n);
    RotateRightMultiset(7, key, row, n % 7);
    RotateRightCells(7, key, row, n % 7);
  }

  /**
   * rotate_down for any integer n keeps every symbol, moves each tile of
   * column `col` n mod 7 places down, wrapping around, and leaves the other
   * columns as they were.
   */
  lemma RotateDownTiles(key: string, col: nat, n: int)
    requires |key| == 49 && col < 7
    ensures multiset(RotateDown(key, col, n)) == multiset(key)
    ensures forall i :: 0 <= i < 7 ==>
              FindAtPos(7, RotateDown(key, col, n), Pos(i, col)) == FindAtPos(7, key, Pos((i - n % 7) % 7, col))
    ensures forall i, j :: 0 <= i < 7 && 0 <= j < 7 && j != col ==>
              FindAtPos(7, RotateDown(key, col, n), Pos(i, j)) == FindAtPos(7, key, Pos(i, j))
  {
    RotateDownAny(key, col, n);
    RotateDownMultiset(7, key, col, n % 7);
    RotateDownCells(7, key, col, n % 7);
  }

  // ---------------------------------------------------------------------------
  // encrypt and decrypt (ls47.py:97-146)

  /** The loop starts from the given key and mp = (0, 0). */
  function Start(key: string): (r: State)
    ensures r.key == key && r.marker == Pos(0, 0)
    ensures KeyVerdict(key).Ok? ==> Keyed(Cfg, r)
  {
    KeyVerdictPermutation(key);
    State(key, Pos(0, 0))
  }

  /** encrypt(key, plaintext): check_key, then the loop of Run from Start(key). */
  function Encryption(key: string, p: string): (r: Result<string>)
    ensures KeyVerdict(key).Err? ==> r == Err(KeyVerdict(key).error)
  {
    var ok :- KeyVerdict(key);
    Reported(Run(Cfg, Encrypting, Start(key), p))
  }

  /** decrypt(key, ciphertext): check_key, then the decrypting Run from Start(key). */
  function Decryption(key: string, c: string): (r: Result<string>)
    ensures KeyVerdict(key).Err? ==> r == Err(KeyVerdict(key).error)
  {
    var ok :- KeyVerdict(key);
    Reported(Run(Cfg, Decrypting, Start(key), c))
  }

  /**
   * With a valid key, encryption fails exactly when some plaintext symbol
   * is outside the alphabet, and then reports the first such symbol.
   */
  lemma EncryptionFails(key: string, p: string)
    requires KeyVerdict(key).Ok?
    ensures Encryption(key, p).Ok? <==> OverAlphabet(7, p)
    ensures Encryption(key, p).Err? ==> Encryption(key, p).error == NotInKey(p[FirstOutside(p, Letters(7))])
  {
    RunFailure(Cfg, Encrypting, Start(key), p);
    var k := FirstOutside(p, Letters(7));
    if !OverAlphabet(7, p) {
      var i :| 0 <= i < |p| && p[i] !in Letters(7);
      assert k <= i;
    }
  }

  /** decrypt(key, encrypt(key, P)) == P, and the ciphertext is as long as P. */
  lemma RoundTrip(key: string, p: string)
    requires Encryption(key, p).Ok?
    ensures |Encryption(key, p).value| == |p|
    ensures Decryption(key, Encryption(key, p).value) == Ok(p)
  {
    RunRoundTrip(Cfg, Start(key), p);
  }

  /**
   * One iteration's row rotation, as ls47.py's rotate_right(key, pp[0], 1)
   * computes it, is the shared first part of the second half.
   */
  lemma RowTurned(st: State, row: nat)
    requires Keyed(Cfg, st) && row < 7
    ensures |st.key| == 49
    ensures State(RotateRight(st.key, row, 1), st.marker) == RowTurn(Cfg, st, row)
  {
    KeyFacts(7, st.key);
    RotateRightAny(st.key, row, 1);
  }

  /**
   * cp = find_pos(key, c); key = rotate_down(key, cp[1], 1);
   * mp = add_pos(mp, find_ix(c)) is the shared second part.
   */
  lemma ColumnTurned(st: State, c: char, cp: Pos)
    requires Keyed(Cfg, st) && FindPos(7, st.key, c) == Ok(cp)
    ensures |st.key| == 49 && cp.col < 7 && c in Letters(7)
    ensures State(RotateDown(st.key, cp.col, 1), AddPos(7, st.marker, FindIx(7, c).value)) == ColumnTurn(Cfg, st, c)
  {
    KeySymbol(7, st.key, c);
    RotateDownAny(st.key, cp.col, 1);
  }

  /** encrypt as the source writes it: check_key, mp = (0, 0), and the loop. */
  method Encrypt(key: string, plaintext: string) returns (r: Result<string>)
    ensures r == Encryption(key, plaintext)
  {
    var checked :- CheckKey(key);
    var st := Start(key);
    var k, mp := key, Pos(0, 0);
    var ciphertext := "";
    for t := 0 to |plaintext|
      invariant Keyed(Cfg, State(k, mp))
      invariant Run(Cfg, Encrypting, st, plaintext[..t]) == Done(ciphertext, State(k, mp))
    {
      var p := plaintext[t];
      var pp := FindPos(7, k, p);
      if pp.Err? {
        KeySymbol(7, k, p);
        RunStops(Cfg, Encrypting, st, plaintext, t, ciphertext, State(k, mp));
        return Err(pp.error);
      }
      ghost var mid, before := State(k, mp), ciphertext;
      EncryptSymbol(Cfg, mid, p, pp.value);
      var mix := Mix(Cfg, State(k, mp));
      var cp := AddPos(7, pp.value, mix);
      var c := FindAtPos(7, k, cp);
      ciphertext := ciphertext + [c];
      RowTurned(mid, pp.value.row);
      k := RotateRight(k, pp.value.row, 1);
      ghost var turned := State(k, mp);
      KeySymbol(7, k, c);
      cp := FindPos(7, k, c).value;
      ColumnTurned(turned, c, cp);
      k := RotateDown(k, cp.col, 1);
      mp := AddPos(7, mp, FindIx(7, c).value);
      RunNext(Cfg, Encrypting, st, plaintext, t, before, mid, Emit(c, State(k, mp)));
    }
    PrefixWhole(plaintext, |plaintext|);
    return Ok(ciphertext);
  }

  /** decrypt as the source writes it: check_key, mp = (0, 0), and the loop. */
  method Decrypt(key: string, ciphertext: string) returns (r: Result<string>)
    ensures r == Decryption(key, ciphertext)
  {
    var checked :- CheckKey(key);
    var st := Start(key);
    var k, mp := key, Pos(0, 0);
    var plaintext := "";
    for t := 0 to |ciphertext|
      invariant Keyed(Cfg, State(k, mp))
      invariant Run(Cfg, Decrypting, st, ciphertext[..t]) == Done(plaintext, State(k, mp))
    {
      var c := ciphertext[t];
      var cp := FindPos(7, k, c);
      if cp.Err? {
        KeySymbol(7, k, c);
        RunStops(Cfg, Decrypting, st, ciphertext, t, plaintext, State(k, mp));
        return Err(cp.error);
      }
      ghost var mid, before := State(k, mp), plaintext;
      DecryptSymbol(Cfg, mid, c, cp.value);
      var mix := Mix(Cfg, State(k, mp));
      var pp := SubPos(7, cp.value, mix);
      var p := FindAtPos(7, k, pp);
      plaintext := plaintext + [p];
      RowTurned(mid, pp.row);
      k := RotateRight(k, pp.row, 1);
      ghost var turned := State(k, mp);
      KeySymbol(7, k, c);
      var cp2 := FindPos(7, k, c).value;
      ColumnTurned(turned, c, cp2);
      k := RotateDown(k, cp2.col, 1);
      mp := AddPos(7, mp, FindIx(7, c).value);
      RunNext(Cfg, Decrypting, st, ciphertext, t, before, mid, Emit(p, State(k, mp)));
    }
    PrefixWhole(ciphertext, |ciphertext|);
    return Ok(plaintext);
  }

  /** The text encrypt_pad encrypts: the padding, the plaintext, '---' and the signature. */
  function Padded(padding: string, p: string, signature: string): (r: string)
    ensures |r| == |padding| + |p| + 3 + |signature|
  {
    padding + p + "---" + signature
  }

  /**
   * encrypt_pad: check_key, then encrypt the padded text. The padding is
   * drawn at random by the source; here it is a parameter of padding_size
   * alphabet symbols.
   */
  method EncryptPad(key: string, padding: string, plaintext: string, signature: string) returns (r: Result<string>)
    requires |padding| == PaddingSize && OverAlphabet(7, padding)
    ensures r == Encryption(key, Padded(padding, plaintext, signature))
  {
    var checked :- CheckKey(key);
    r := Encrypt(key, padding + plaintext + "---" + signature);
  }

  /** decrypt_pad: check_key, decrypt, and drop the first padding_size symbols. */
  function PadDecryption(key: string, c: string): (r: Result<string>)
    ensures KeyVerdict(key).Err? ==> r == Err(KeyVerdict(key).error)
  {
    var p :- Decryption(key, c);
    Ok(Drop(p, PaddingSize))
  }

  method DecryptPad(key: string, ciphertext: string) returns (r: Result<string>)
    ensures r == PadDecryption(key, ciphertext)
  {
    var checked :- CheckKey(key);
    var p :- Decrypt(key, ciphertext);
    return Ok(Drop(p, PaddingSize));
  }

  /**
   * decrypt_pad(key, encrypt_pad(key, P, S)) == P + '---' + S: the padding
   * is dropped, whatever symbols it was drawn from.
   */
  lemma PadRoundTrip(key: string, padding: string, p: string, signature: string)
    requires |padding| == PaddingSize
    requires Encryption(key, Padded(padding, p, signature)).Ok?
    ensures PadDecryption(key, Encryption(key, Padded(padding, p, signature)).value) == Ok(p + "---" + signature)
  {
    var text := Padded(padding, p, signature);
    RoundTrip(key, text);
    Unpadded(padding, p, signature);
  }

  /** Dropping padding_size symbols from the padded text leaves P + '---' + S. */
  lemma Unpadded(padding: string, p: string, signature: string)
    requires |padding| == PaddingSize
    ensures Drop(Padded(padding, p, signature), PaddingSize) == p + "---" + signature
  {
    var rest := p + "---" + signature;
    assert Padded(padding, p, signature) == padding + rest;
    SplitAt(padding, rest);
  }

  // ---------------------------------------------------------------------------
  // derive_key (ls47.py:87-94)

  /**
   * One iteration of ls47.py's derive_key, with its own rotations: row t % 7
   * rotated right by the column of find_ix(c), then column t % 7 down by its
   * row. It is the shared DeriveStep, so the prefix derivation moves on.
   */
  lemma DerivedTurned(pw: string, t: nat, k: string, q: Pos, k': string)
    requires t < |pw| && Derived(7, pw[..t]) == Ok(k) && FindIx(7, pw[t]) == Ok(q)
    requires |k| == 49 && q.row < 7 && q.col < 7
    requires k' == RotateDown(RotateRight(k, t % 7, q.col), t % 7, q.row)
    ensures Derived(7, pw[..t + 1]) == Ok(k')
  {
    TurnAgrees(k, t % 7, q.col, q.row);
    DerivedGoesOn(7, pw, t, k, q, k');
  }

  /** For shifts inside the grid, ls47.py's two rotations are the shared ones. */
  lemma TurnAgrees(k: string, i: nat, col: nat, row: nat)
    requires |k| == 49 && i < 7 && col < 7 && row < 7
    ensures RotateDown(RotateRight(k, i, col), i, row)
            == Grid.RotateDown(7, Grid.RotateRight(7, k, i, col), i, row)
  {
    var g, h := RotateRight(k, i, col), Grid.RotateRight(7, k, i, col);
    RotateRightAny(k, i, col);
    assert col % 7 == col && g == h;
    RotateDownAny(g, i, row);
    assert row % 7 == row && RotateDown(g, i, row) == Grid.RotateDown(7, h, i, row);
  }

  /**
   * derive_key: starting from the alphabet, rotate row i right by the
   * column and column i down by the row of each password symbol's
   * alphabet position, i counting modulo 7. It computes Derived(7, ·): it
   * raises at the first symbol outside the alphabet and otherwise yields
   * a permutation of the alphabet.
   */
  method DeriveKey(password: string) returns (r: Result<string>)
    ensures r == Derived(7, password)
  {
    var i := 0;
    var k := Letters(7);
    var t := 0;
    while t < |password|
      invariant t <= |password| && i == t % 7
      invariant Derived(7, password[..t]) == Ok(k)
    {
      var q := FindIx(7, password[t]);
      if q.Err? {
        DerivedStops(7, password, t);
        return Err(q.error);
      }
      KeyFacts(7, k);
      var k' := RotateDown(RotateRight(k, i, q.value.col), i, q.value.row);
      DerivedTurned(password, t, k, q.value, k');
      k := k';
      NextRow(7, t);
      i := (i + 1) % 7;
      t := t + 1;
    }
    PrefixWhole(password, t);
    return Ok(k);
  }

  /** A key derived from a password is one that check_key accepts (ls47.py:87-94, 16-27). */
  lemma DerivedKeyAccepted(password: string)
    requires Derived(7, password).Ok?
    ensures KeyVerdict(Derived(7, password).value) == Ok(())
  {
    KeyVerdictPermutation(Derived(7, password).value);
  }
}
