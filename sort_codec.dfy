/**
  The sort token carried in the URL: `format()` writes an ordered map from
  column index to direction code as `col<type_sep>code` pieces joined by
  `sort_sep`, and the first loop of `do_sort()` reads such a token back,
  keeping only the pieces that name an existing column with code 1 or 2.
 */
module SortCodec {
  import opened Wrappers
  import opened PhpStrings
  import opened Assoc
  import opened Errors

  const SortNone: int := 0
  const SortAsc: int := 1
  const SortDesc: int := 2

  /** The separators of the default profile. */
  const DefaultSortSep: string := "--"
  const DefaultTypeSep: string := "-"

  /**
    A direction as the table holds it: an int when it comes from a column's
    configuration or from the resolver, the raw text when it was read from
    the URL (the decoder stores the string it found).
   */
  datatype Code = IntCode(n: int) | TextCode(s: string)

  /** PHP's string conversion of a code, as `format()` concatenates it. */
  function CodeText(c: Code): string
  {
    match c
    case IntCode(n) => IntToString(n)
    case TextCode(s) => s
  }

  /** PHP 8 `c == d` for an int constant d. */
  predicate CodeIs(c: Code, d: int)
  {
    match c
    case IntCode(n) => n == d
    case TextCode(s) => LooseEqualsInt(s, d)
  }

  /** The decoded sort map: column index to code, in insertion order. */
  type SortState = seq<(int, Code)>

  function Piece(e: (int, Code), typeSep: string): string
  {
    IntToString(e.0) + typeSep + CodeText(e.1)
  }

  function FormatPieces(m: SortState, typeSep: string): (ps: seq<string>)
    ensures |ps| == |m|
  {
    seq(|m|, j requires 0 <= j < |m| => Piece(m[j], typeSep))
  }

  /** `format($data)`. */
  function Format(m: SortState, sortSep: string, typeSep: string): string
  {
    Join(sortSep, FormatPieces(m, typeSep))
  }

  /** The strings `array_filter` keeps: all but "" and "0". */
  predicate Truthy(s: string)
  {
    s != "" && s != "0"
  }

  /** `array_filter` over a list of strings (the kept pieces, in order). */
  function KeepPieces(ps: seq<string>): seq<string>
    decreases |ps|
  {
    if ps == [] then []
    else KeepPieces(ps[..|ps| - 1]) + (if Truthy(ps[|ps| - 1]) then [ps[|ps| - 1]] else [])
  }

  /** `in_array($type, [sort_asc, sort_desc])` for the text after the type separator. */
  predicate AcceptedCode(t: string)
  {
    LooseEqualsInt(t, SortAsc) || LooseEqualsInt(t, SortDesc)
  }

  /**
    One piece of the token: split at the first type separator; kept when
    the left part is the key of an existing column (1..ncols after PHP's
    key normalisation) and the right part is loosely 1 or 2.
   */
  function DecodePiece(piece: string, typeSep: string, ncols: nat): Option<(int, Code)>
    requires |typeSep| > 0
  {
    var (col, rest) := SplitFirst(typeSep, piece);
    var key := CanonicalInt(col);
    if key.Some? && 1 <= key.value <= ncols && rest.Some? && AcceptedCode(rest.value) then
      Some((key.value, TextCode(rest.value)))
    else None
  }

  /** `$sort[$column] = $type` for every accepted piece, in order. */
  function DecodePieces(ps: seq<string>, typeSep: string, ncols: nat): SortState
    requires |typeSep| > 0
    decreases |ps|
  {
    if ps == [] then []
    else
      var acc := DecodePieces(ps[..|ps| - 1], typeSep, ncols);
      var e := DecodePiece(ps[|ps| - 1], typeSep, ncols);
      if e.Some? then Put(acc, e.value.0, e.value.1) else acc
  }

  /**
    The decoder: an absent segment decodes to the empty map; `explode`
    with an empty separator raises.
   */
  function Decode(segment: Option<string>, sortSep: string, typeSep: string, ncols: nat): Result<SortState, TableError>
  {
    if segment.None? then Success([])
    else if |sortSep| == 0 then Failure(EmptySeparator)
    else
      var ps := KeepPieces(Explode(sortSep, segment.value));
      if ps == [] then Success([])
      else if |typeSep| == 0 then Failure(EmptySeparator)
      else Success(DecodePieces(ps, typeSep, ncols))
  }

  /** The decode loop of `do_sort()`, piece by piece. */
  method DecodeSort(segment: Option<string>, sortSep: string, typeSep: string, ncols: nat)
    returns (r: Result<SortState, TableError>)
    ensures r == Decode(segment, sortSep, typeSep, ncols)
    ensures r.Failure? ==> r.error == EmptySeparator && (sortSep == "" || typeSep == "")
  {
    var sort: SortState := [];
    if segment.Some? {
      if |sortSep| == 0 {
        return Failure(EmptySeparator);
      }
      var ps := KeepPieces(Explode(sortSep, segment.value));
      var j := 0;
      while j < |ps|
        invariant 0 <= j <= |ps|
        invariant j == 0 ==> sort == []
        invariant j > 0 ==> |typeSep| > 0
        invariant |typeSep| > 0 ==> sort == DecodePieces(ps[..j], typeSep, ncols)
      {
        if |typeSep| == 0 {
          return Failure(EmptySeparator);
        }
        var e := DecodePiece(ps[j], typeSep, ncols);
        if e.Some? {
          sort := Put(sort, e.value.0, e.value.1);
        }
        assert ps[..j + 1][..j] == ps[..j];
        j := j + 1;
      }
      assert ps[..|ps|] == ps;
    }
    return Success(sort);
  }

  // ---------------------------------------------------------------------
  // What the decoder keeps

  /**
    A kept piece is exactly `<col><type_sep><code>` for an existing column
    and an accepted code, and the code is stored as the text found.
   */
  lemma {:induction false} DecodePieceKept(piece: string, typeSep: string, ncols: nat, k: int, c: Code)
    requires |typeSep| > 0
    requires DecodePiece(piece, typeSep, ncols) == Some((k, c))
    ensures 1 <= k <= ncols && c.TextCode? && AcceptedCode(c.s)
    ensures piece == IntToString(k) + typeSep + c.s
  {
    var (col, rest) := SplitFirst(typeSep, piece);
    SplitFirstJoins(typeSep, piece);
    CanonicalIntIsDecimalText(col, k);
  }

  /** A separator that does not start with a digit is never found inside a number. */
  lemma DigitsBeforeSep(sep: string, d: string)
    requires |sep| > 0 && !IsDigit(sep[0]) && AllDigits(d)
    ensures NoEarlyOccurrence(sep, d)
  {
    forall j | 0 <= j < |d|
      ensures !OccursAt(sep, d + sep, j)
    {
      Mismatch(sep, d + sep, j, 0);
    }
  }

  /** Conversely, every `<col><type_sep><code>` piece for an existing column and accepted code is kept. */
  lemma DecodePieceAccepts(typeSep: string, ncols: nat, k: int, t: string)
    requires |typeSep| > 0 && !IsDigit(typeSep[0])
    requires 1 <= k <= ncols && AcceptedCode(t)
    ensures DecodePiece(IntToString(k) + typeSep + t, typeSep, ncols) == Some((k, TextCode(t)))
  {
    var d := IntToString(k);
    DigitsBeforeSep(typeSep, d);
    SplitFirstAt(typeSep, d, t);
    CanonicalIntIsDecimalText(d, k);
  }

  /**
    The separator is taken at its first occurrence only, so a piece such
    as "1-1-2" is dropped rather than read as column 1.
   */
  lemma FirstTypeSepOnly()
    ensures DecodePiece("1-1-2", DefaultTypeSep, 3) == None
  {
    var d := "1";
    assert d == IntToString(1);
    DigitsBeforeSep("-", d);
    SplitFirstAt("-", d, "1-2");
    assert "1-1-2" == d + "-" + "1-2";
    RestNotAccepted();
  }

  /** "1-2" is not a numeric string, so it is neither asc nor desc. */
  lemma RestNotAccepted()
    ensures !AcceptedCode("1-2")
  {
    var t := "1-2";
    assert TrimLeading(t) == t;
    assert TrimTrailing(t) == t;
    assert !AllDigits(t) by { assert !IsDigit(t[1]); }
    assert !AllDigits(t[1..]) by { assert t[1..][0] == '-'; }
  }

  /** Piece `j` is kept under key `k`. */
  predicate KeptAs(piece: string, typeSep: string, ncols: nat, k: int)
    requires |typeSep| > 0
  {
    DecodePiece(piece, typeSep, ncols).Some? && DecodePiece(piece, typeSep, ncols).value.0 == k
  }

  /** A kept piece names an existing column and carries an accepted code text. */
  predicate Accepted(x: (int, Code), ncols: nat)
  {
    1 <= x.0 <= ncols && x.1.TextCode? && AcceptedCode(x.1.s)
  }

  lemma {:induction false} DecodedRange(ps: seq<string>, typeSep: string, ncols: nat)
    requires |typeSep| > 0
    ensures forall x :: x in DecodePieces(ps, typeSep, ncols) ==> Accepted(x, ncols)
    decreases |ps|
  {
    if ps != [] {
      var init := ps[..|ps| - 1];
      var acc := DecodePieces(init, typeSep, ncols);
      DecodedRange(init, typeSep, ncols);
      var e := DecodePiece(ps[|ps| - 1], typeSep, ncols);
      if e.Some? {
        DecodePieceKept(ps[|ps| - 1], typeSep, ncols, e.value.0, e.value.1);
        PutEntries(acc, e.value.0, e.value.1);
      }
    }
  }

  /** Some piece of the list is kept under key `k`. */
  predicate SomeKept(ps: seq<string>, typeSep: string, ncols: nat, k: int)
    requires |typeSep| > 0
  {
    exists j :: 0 <= j < |ps| && KeptAs(ps[j], typeSep, ncols, k)
  }

  lemma SomeKeptSnoc(ps: seq<string>, typeSep: string, ncols: nat, k: int)
    requires |typeSep| > 0 && ps != []
    ensures SomeKept(ps, typeSep, ncols, k) <==>
      SomeKept(ps[..|ps| - 1], typeSep, ncols, k) || KeptAs(ps[|ps| - 1], typeSep, ncols, k)
  {
    var init := ps[..|ps| - 1];
    var last := ps[|ps| - 1];
    if SomeKept(init, typeSep, ncols, k) {
      var j :| 0 <= j < |init| && KeptAs(init[j], typeSep, ncols, k);
      assert ps[j] == init[j];
    } else if KeptAs(last, typeSep, ncols, k) {
      assert ps[|ps| - 1] == last;
    } else {
      forall j | 0 <= j < |ps|
        ensures !KeptAs(ps[j], typeSep, ncols, k)
      {
        if j < |init| {
          assert init[j] == ps[j];
        }
      }
    }
  }

  lemma {:induction false} DecodedKeys(ps: seq<string>, typeSep: string, ncols: nat)
    requires |typeSep| > 0
    ensures var r := DecodePieces(ps, typeSep, ncols);
      DistinctKeys(r) && forall k :: HasKey(r, k) <==> SomeKept(ps, typeSep, ncols, k)
    decreases |ps|
  {
    if ps != [] {
      var init := ps[..|ps| - 1];
      var acc := DecodePieces(init, typeSep, ncols);
      DecodedKeys(init, typeSep, ncols);
      var e := DecodePiece(ps[|ps| - 1], typeSep, ncols);
      if e.Some? {
        PutKeys(acc, e.value.0, e.value.1);
      }
      forall k
        ensures SomeKept(ps, typeSep, ncols, k) <==>
          SomeKept(init, typeSep, ncols, k) || KeptAs(ps[|ps| - 1], typeSep, ncols, k)
      {
        SomeKeptSnoc(ps, typeSep, ncols, k);
      }
    }
  }

  /**
    The decoded map holds each column at most once, only existing columns
    with accepted codes, and a column exactly when some piece was kept
    for it.
   */
  lemma DecodedState(ps: seq<string>, typeSep: string, ncols: nat)
    requires |typeSep| > 0
    ensures var r := DecodePieces(ps, typeSep, ncols);
      DistinctKeys(r) &&
      (forall j :: 0 <= j < |r| ==> 1 <= r[j].0 <= ncols && r[j].1.TextCode? && AcceptedCode(r[j].1.s)) &&
      (forall k :: HasKey(r, k) <==> exists j :: 0 <= j < |ps| && KeptAs(ps[j], typeSep, ncols, k))
  {
    var r := DecodePieces(ps, typeSep, ncols);
    DecodedRange(ps, typeSep, ncols);
    DecodedKeys(ps, typeSep, ncols);
    assert forall j :: 0 <= j < |r| ==> r[j] in r;
  }

  /** A later piece for the same column overwrites the value of an earlier one. */
  lemma {:induction false} DecodedLastWins(ps: seq<string>, typeSep: string, ncols: nat, j: nat, k: int, c: Code)
    requires |typeSep| > 0 && j < |ps|
    requires DecodePiece(ps[j], typeSep, ncols) == Some((k, c))
    requires forall i :: j < i < |ps| ==> !KeptAs(ps[i], typeSep, ncols, k)
    ensures Get(DecodePieces(ps, typeSep, ncols), k) == Some(c)
    decreases |ps|
  {
    var init := ps[..|ps| - 1];
    var acc := DecodePieces(init, typeSep, ncols);
    var e := DecodePiece(ps[|ps| - 1], typeSep, ncols);
    if j == |ps| - 1 {
      PutGet(acc, k, c, k);
    } else {
      assert init[j] == ps[j];
      forall i | j < i < |init|
        ensures !KeptAs(init[i], typeSep, ncols, k)
      {
        assert init[i] == ps[i];
      }
      DecodedLastWins(init, typeSep, ncols, j, k, c);
      if e.Some? {
        assert !KeptAs(ps[|ps| - 1], typeSep, ncols, k);
        PutGet(acc, e.value.0, e.value.1, k);
      }
    }
  }

  /** The columns of the kept pieces, in piece order, repeats included. */
  function KeptColumns(ps: seq<string>, typeSep: string, ncols: nat): seq<int>
    requires |typeSep| > 0
    decreases |ps|
  {
    if ps == [] then []
    else
      var e := DecodePiece(ps[|ps| - 1], typeSep, ncols);
      KeptColumns(ps[..|ps| - 1], typeSep, ncols) + (if e.Some? then [e.value.0] else [])
  }

  /** A list with every repeat of an element after its first occurrence dropped. */
  function FirstOccurrences(xs: seq<int>): seq<int>
    decreases |xs|
  {
    if xs == [] then []
    else
      var n := |xs| - 1;
      FirstOccurrences(xs[..n]) + (if xs[n] in xs[..n] then [] else [xs[n]])
  }

  /** The columns of a sort map, in its order. */
  function KeysOf(m: SortState): (r: seq<int>)
    ensures |r| == |m|
  {
    seq(|m|, j requires 0 <= j < |m| => m[j].0)
  }

  /** `$sort[$k] = $v` keeps the columns at their first occurrences. */
  lemma KeyOrderStep(acc: SortState, kc: seq<int>, k: int, v: Code)
    requires forall k' :: HasKey(acc, k') <==> k' in kc
    requires KeysOf(acc) == FirstOccurrences(kc)
    ensures forall k' :: HasKey(Put(acc, k, v), k') <==> k' in kc + [k]
    ensures KeysOf(Put(acc, k, v)) == FirstOccurrences(kc + [k])
  {
    var full := kc + [k];
    assert full[..|kc|] == kc && full[|kc|] == k;
    assert FirstOccurrences(full) == FirstOccurrences(kc) + (if k in kc then [] else [k]);
    assert forall k' :: k' in full <==> k' in kc || k' == k;
    PutKeys(acc, k, v);
    if HasKey(acc, k) {
      PutExisting(acc, k, v);
      assert KeysOf(Put(acc, k, v)) == KeysOf(acc);
    } else {
      PutNew(acc, k, v);
      assert KeysOf(acc + [(k, v)]) == KeysOf(acc) + [k];
    }
  }

  /**
    A column named by several pieces stands where its first kept piece put
    it: the decoded columns are the kept pieces' columns in order, each at
    its first occurrence. That order is the `order_by` priority and the
    order the header links keep.
   */
  lemma {:induction false} DecodedOrder(ps: seq<string>, typeSep: string, ncols: nat)
    requires |typeSep| > 0
    ensures forall k :: HasKey(DecodePieces(ps, typeSep, ncols), k) <==> k in KeptColumns(ps, typeSep, ncols)
    ensures KeysOf(DecodePieces(ps, typeSep, ncols)) == FirstOccurrences(KeptColumns(ps, typeSep, ncols))
    decreases |ps|
  {
    if ps != [] {
      var n := |ps| - 1;
      var init := ps[..n];
      DecodedOrder(init, typeSep, ncols);
      var acc := DecodePieces(init, typeSep, ncols);
      var e := DecodePiece(ps[n], typeSep, ncols);
      var kc := KeptColumns(init, typeSep, ncols);
      assert DecodePieces(ps, typeSep, ncols) == if e.Some? then Put(acc, e.value.0, e.value.1) else acc;
      assert KeptColumns(ps, typeSep, ncols) == kc + (if e.Some? then [e.value.0] else []);
      if e.Some? {
        KeyOrderStep(acc, kc, e.value.0, e.value.1);
      } else {
        assert kc + [] == kc;
      }
    }
  }

  // ---------------------------------------------------------------------
  // Round trip

  /** A code as the table writes it for asc or desc. */
  predicate CanonicalCode(c: Code)
  {
    CodeText(c) == "1" || CodeText(c) == "2"
  }

  /** A sort map the encoder can write faithfully: distinct existing columns, codes 1 or 2. */
  predicate WellFormed(m: SortState, ncols: nat)
  {
    DistinctKeys(m) && forall j :: 0 <= j < |m| ==> 1 <= m[j].0 <= ncols && CanonicalCode(m[j].1)
  }

  /** The map as the decoder stores it: each code replaced by its text. */
  function AsText(m: SortState): (r: SortState)
    ensures |r| == |m|
  {
    seq(|m|, j requires 0 <= j < |m| => (m[j].0, TextCode(CodeText(m[j].1))))
  }

  /**
    Separators the round trip holds for: both non-empty, neither containing
    a digit, and the sort separator not occurring in the type separator.
   */
  predicate SeparatorsOk(sortSep: string, typeSep: string)
  {
    |sortSep| > 0 && |typeSep| > 0 && NoDigit(sortSep) && NoDigit(typeSep) &&
    forall o | 0 <= o <= |typeSep| :: !OccursAt(sortSep, typeSep, o)
  }

  lemma DefaultSeparatorsOk()
    ensures SeparatorsOk(DefaultSortSep, DefaultTypeSep)
  {
  }

  /** `array_filter` keeps a list whose every piece is truthy. */
  lemma {:induction false} KeepAllTruthy(ps: seq<string>)
    requires forall k :: 0 <= k < |ps| ==> Truthy(ps[k])
    ensures KeepPieces(ps) == ps
    decreases |ps|
  {
    if ps != [] {
      var n := |ps| - 1;
      var init, x := ps[..n], ps[n];
      forall k | 0 <= k < |init|
        ensures Truthy(init[k])
      {
        assert init[k] == ps[k];
      }
      KeepAllTruthy(init);
      assert Truthy(x);
      assert KeepPieces(ps) == KeepPieces(init) + [x];
      assert init + [x] == ps;
    }
  }

  /** The sort separator cannot be found inside one written piece. */
  lemma PieceNoEarly(sortSep: string, typeSep: string, d: string, c: string)
    requires SeparatorsOk(sortSep, typeSep)
    requires AllDigits(d) && |c| == 1 && IsDigit(c[0])
    ensures NoEarlyOccurrence(sortSep, d + typeSep + c)
  {
    var p := d + typeSep + c;
    var w := p + sortSep;
    forall j | 0 <= j < |p|
      ensures !OccursAt(sortSep, w, j)
    {
      if j < |d| {
        assert w[j] == d[j];
        Mismatch(sortSep, w, j, 0);
      } else if j < |d| + |typeSep| {
        var o := j - |d|;
        if o + |sortSep| <= |typeSep| {
          assert !OccursAt(sortSep, typeSep, o);
          assert w[j..j + |sortSep|] == typeSep[o..o + |sortSep|];
        } else {
          var m := |typeSep| - o;
          assert w[j + m] == c[0];
          Mismatch(sortSep, w, j, m);
        }
      } else {
        assert w[j] == c[0];
        Mismatch(sortSep, w, j, 0);
      }
    }
  }

  lemma CanonicalAccepted(c: Code)
    requires CanonicalCode(c)
    ensures AcceptedCode(CodeText(c))
  {
    DecimalTextIsNumeric(1);
    DecimalTextIsNumeric(2);
    assert NatToString(1) == "1" && NatToString(2) == "2";
  }

  /** One more kept piece: its entry is written into the map decoded so far. */
  lemma DecodePiecesSnoc(ps: seq<string>, typeSep: string, ncols: nat, e: (int, Code))
    requires |typeSep| > 0 && ps != [] && DecodePiece(ps[|ps| - 1], typeSep, ncols) == Some(e)
    ensures DecodePieces(ps, typeSep, ncols) == Put(DecodePieces(ps[..|ps| - 1], typeSep, ncols), e.0, e.1)
  {
  }

  /** Each written piece of a well-formed map decodes to its own entry, as text. */
  lemma PieceDecodes(m: SortState, typeSep: string, ncols: nat, j: nat)
    requires |typeSep| > 0 && NoDigit(typeSep) && WellFormed(m, ncols) && j < |m|
    ensures DecodePiece(FormatPieces(m, typeSep)[j], typeSep, ncols) == Some(AsText(m)[j])
  {
    var e := m[j];
    CanonicalAccepted(e.1);
    DecodePieceAccepts(typeSep, ncols, e.0, CodeText(e.1));
  }

  /** Appending an entry appends its text form. */
  lemma AsTextAppend(m: SortState, e: (int, Code))
    ensures AsText(m + [e]) == AsText(m) + [(e.0, TextCode(CodeText(e.1)))]
  {
  }

  lemma DistinctPrefix<K(!new), V>(m: seq<(K, V)>, n: nat)
    requires DistinctKeys(m) && n <= |m|
    ensures DistinctKeys(m[..n]) && (n < |m| ==> !HasKey(m[..n], m[n].0))
  {
    assert forall j :: 0 <= j < n ==> m[..n][j] == m[j];
  }

  /** Pieces that each decode to one entry of a map with distinct keys rebuild that map, in order. */
  lemma {:induction false} DecodeAll(ps: seq<string>, typeSep: string, ncols: nat, m: SortState)
    requires |typeSep| > 0 && |ps| == |m| && DistinctKeys(m)
    requires forall j :: 0 <= j < |ps| ==> DecodePiece(ps[j], typeSep, ncols) == Some(m[j])
    ensures DecodePieces(ps, typeSep, ncols) == m
    decreases |ps|
  {
    if ps != [] {
      var n := |ps| - 1;
      DistinctPrefix(m, n);
      var ps0, m0 := ps[..n], m[..n];
      forall j | 0 <= j < n
        ensures DecodePiece(ps0[j], typeSep, ncols) == Some(m0[j])
      {
        assert ps0[j] == ps[j] && m0[j] == m[j];
      }
      DecodeAll(ps0, typeSep, ncols, m0);
      DecodePiecesSnoc(ps, typeSep, ncols, m[n]);
      PutNew(m[..n], m[n].0, m[n].1);
      assert m[..n] + [m[n]] == m;
    }
  }

  /** Decoding the written pieces of a well-formed map gives the map back, as text. */
  lemma DecodeFormatted(m: SortState, typeSep: string, ncols: nat)
    requires |typeSep| > 0 && NoDigit(typeSep) && WellFormed(m, ncols)
    ensures DecodePieces(FormatPieces(m, typeSep), typeSep, ncols) == AsText(m)
  {
    var ps := FormatPieces(m, typeSep);
    var r := AsText(m);
    forall j | 0 <= j < |ps|
      ensures DecodePiece(ps[j], typeSep, ncols) == Some(r[j])
    {
      PieceDecodes(m, typeSep, ncols, j);
    }
    assert DistinctKeys(r) by {
      assert forall j :: 0 <= j < |r| ==> r[j].0 == m[j].0;
    }
    DecodeAll(ps, typeSep, ncols, r);
  }

  /**
    Round trip: with separators that satisfy SeparatorsOk (the defaults
    do), decoding the token written for a well-formed map yields that map,
    with each code as the text "1" or "2", in the same order.
   */
  lemma RoundTrip(m: SortState, sortSep: string, typeSep: string, ncols: nat)
    requires SeparatorsOk(sortSep, typeSep) && WellFormed(m, ncols)
    ensures Decode(Some(Format(m, sortSep, typeSep)), sortSep, typeSep, ncols) == Success(AsText(m))
  {
    var ps := FormatPieces(m, typeSep);
    if m == [] {
      assert ps == [];
      assert Explode(sortSep, "") == [""];
      assert KeepPieces([""]) == [];
    } else {
      forall k | 0 <= k < |ps|
        ensures NoEarlyOccurrence(sortSep, ps[k]) && Truthy(ps[k])
      {
        var (key, c) := m[k];
        assert IntToString(key) == NatToString(key);
        PieceNoEarly(sortSep, typeSep, IntToString(key), CodeText(c));
        assert |ps[k]| >= 3;
      }
      ExplodeJoin(sortSep, ps);
      KeepAllTruthy(ps);
      DecodeFormatted(m, typeSep, ncols);
    }
  }
}
