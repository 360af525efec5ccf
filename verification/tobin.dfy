/** `tobin` (tobin/src/main.rs): a 128-bit unsigned value written as
    space-separated groups of eight binary digits, most significant first,
    with every all-zero group left out. */
module BinaryFormat {
  import opened BinaryDigits

  const U128_LIMIT: nat := 0x1_0000_0000_0000_0000_0000_0000_0000_0000

  type u128 = v: nat | v < U128_LIMIT

  /** The group `tobin` leaves out. */
  const ZERO_GROUP: string := "00000000"

  // ---------------------------------------------------------------------
  // The encoder as written

  /** The sixteen groups cut from the 128 digits of `v` by the bit loop:
      group `k` holds bits 127 - 8k down to 120 - 8k. */
  function Groups(v: u128): (gs: seq<string>)
    ensures |gs| == 16
  {
    var digits := Bits(v, 128);
    seq(16, k requires 0 <= k < 16 => digits[8 * k .. 8 * k + 8])
  }

  /** Keeps the groups that are not all zero, in order. */
  function DropZeroGroups(gs: seq<string>): seq<string> {
    if |gs| == 0 then []
    else if gs[0] == ZERO_GROUP then DropZeroGroups(gs[1..])
    else [gs[0]] + DropZeroGroups(gs[1..])
  }

  /** The fold `acc + " " + val` over the groups. */
  function FoldSpaces(acc: string, gs: seq<string>): string
    decreases |gs|
  {
    if |gs| == 0 then acc else FoldSpaces(acc + " " + gs[0], gs[1..])
  }

  function TrimStart(s: string): string {
    if |s| > 0 && s[0] == ' ' then TrimStart(s[1..]) else s
  }

  function TrimEnd(s: string): string {
    if |s| > 0 && s[|s| - 1] == ' ' then TrimEnd(s[..|s| - 1]) else s
  }

  /** Leading and trailing blanks removed (the only whitespace the encoder
      can produce is the blank). */
  function Trim(s: string): string {
    TrimEnd(TrimStart(s))
  }

  /** The encoder: cut the digits into groups, drop the all-zero groups,
      fold them together with blanks, trim. */
  function Tobin(v: u128): string {
    Trim(FoldSpaces("", DropZeroGroups(Groups(v))))
  }

  /** After a digit is appended the bit index is a multiple of eight
      exactly when the current group is full. */
  lemma CutPoint(i: nat, n: nat, c: nat)
    requires 128 - i == 8 * n + c && 1 <= c <= 8
    ensures i % 8 == 0 <==> c == 8
  {
  }

  /** Taking bit `i` extends the digits read so far by one. */
  lemma NextDigit(v: u128, start: nat, i: nat)
    requires start <= 127 - i && i < 128
    ensures Bits(v, 128)[start .. 128 - i] == Bits(v, 128)[start .. 127 - i] + [Digit(Bit(v, i))]
  {
    BitsDigit(v, 128, 127 - i);
  }

  /** The encoder with its loop: bits 127 down to 0 are tested one at a
      time, a digit is appended for each, and the group is cut whenever the
      bit index is a multiple of eight. */
  method TobinLoop(v: u128) returns (r: string)
    ensures r == Tobin(v)
  {
    ghost var digits := Bits(v, 128);
    var convertedBytes: seq<string> := [];
    var convertedByte := "";
    var i := 128;
    while i > 0
      invariant 0 <= i <= 128
      invariant 128 - i == 8 * |convertedBytes| + |convertedByte|
      invariant |convertedByte| < 8
      invariant convertedByte == digits[8 * |convertedBytes| .. 128 - i]
      invariant forall k :: 0 <= k < |convertedBytes| ==> convertedBytes[k] == digits[8 * k .. 8 * k + 8]
    {
      i := i - 1;
      NextDigit(v, 8 * |convertedBytes|, i);
      if Bit(v, i) {
        convertedByte := convertedByte + "1";
      } else {
        convertedByte := convertedByte + "0";
      }
      CutPoint(i, |convertedBytes|, |convertedByte|);
      if i % 8 == 0 {
        convertedBytes := convertedBytes + [convertedByte];
        convertedByte := "";
      }
    }
    assert convertedBytes == Groups(v);
    r := Trim(FoldSpaces("", DropZeroGroups(convertedBytes)));
  }

  // ---------------------------------------------------------------------
  // The reference: bytes, groups and the blank-separated layout

  /** Byte `k` of `v`, byte 0 being the least significant. */
  function Byte(v: nat, k: nat): (b: nat)
    ensures b < 256
  {
    (v / Pow2(8 * k)) % 256
  }

  /** The sixteen bytes of `v`, most significant first. */
  function AllBytes(v: u128): (bs: seq<nat>)
    ensures |bs| == 16
    ensures forall j :: 0 <= j < 16 ==> bs[j] < 256
  {
    seq(16, j requires 0 <= j < 16 => Byte(v, 15 - j))
  }

  /** The non-zero elements of `bs`, in order. */
  function NonZero(bs: seq<nat>): (r: seq<nat>)
    ensures |r| <= |bs|
    ensures forall j :: 0 <= j < |r| ==> r[j] != 0 && r[j] in bs
  {
    if |bs| == 0 then []
    else if bs[0] == 0 then NonZero(bs[1..])
    else [bs[0]] + NonZero(bs[1..])
  }

  /** Each byte written as eight binary digits, most significant first. */
  function ByteGroups(bs: seq<nat>): (gs: seq<string>)
    ensures |gs| == |bs|
  {
    seq(|bs|, j requires 0 <= j < |bs| => Bits(bs[j], 8))
  }

  /** A non-empty run of characters without a blank. */
  predicate IsWord(g: string) {
    |g| > 0 && forall k :: 0 <= k < |g| ==> g[k] != ' '
  }

  /** The words separated by single blanks. */
  function JoinSpaces(gs: seq<string>): string
    decreases |gs|
  {
    if |gs| == 0 then ""
    else if |gs| == 1 then gs[0]
    else gs[0] + " " + JoinSpaces(gs[1..])
  }

  /** Position of the first blank in `s`, or `|s|` if there is none. */
  function FirstBlank(s: string): (i: nat)
    ensures i <= |s|
    ensures forall k :: 0 <= k < i ==> s[k] != ' '
    ensures i < |s| ==> s[i] == ' '
  {
    if |s| == 0 || s[0] == ' ' then 0 else 1 + FirstBlank(s[1..])
  }

  /** The blank-separated pieces of `s` (none for the empty string). */
  function Split(s: string): seq<string>
    decreases |s|
  {
    if |s| == 0 then []
    else
      var i := FirstBlank(s);
      if i == |s| then [s] else [s[..i]] + Split(s[i + 1..])
  }

  function Concat(gs: seq<string>): string {
    if |gs| == 0 then "" else gs[0] + Concat(gs[1..])
  }

  function RemoveBlanks(s: string): string {
    if |s| == 0 then ""
    else (if s[0] == ' ' then "" else [s[0]]) + RemoveBlanks(s[1..])
  }

  /** No byte of `v` is zero below its most significant non-zero byte. */
  predicate NoInteriorZeroByte(v: u128) {
    forall m, k :: 0 <= m < k < 16 && Byte(v, k) != 0 ==> Byte(v, m) != 0
  }

  // ---------------------------------------------------------------------
  // Groups are the bytes

  /** The first `j` digits of a string worth `x` are worth `x` shifted right
      by the remaining digits. */
  lemma PrefixValue(s: string, x: nat, j: nat)
    requires Decode(s) == x && j <= |s|
    ensures Decode(s[..j]) == x / Pow2(|s| - j)
  {
    assert s == s[..j] + s[j..];
    DecodeAppend(s[..j], s[j..]);
    DecodeBound(s[j..]);
    DivModUnique(x, Pow2(|s| - j), Decode(s[..j]), Decode(s[j..]));
  }

  /** Eight digits starting at `i` of a string worth `x` are one byte of `x`. */
  lemma SliceValue(s: string, x: nat, i: nat)
    requires Decode(s) == x && i + 8 <= |s|
    ensures Decode(s[i..i + 8]) == (x / Pow2(|s| - i - 8)) % 256
  {
    var g := s[i..i + 8];
    assert s[..i + 8] == s[..i] + g;
    DecodeAppend(s[..i], g);
    DecodeBound(g);
    PrefixValue(s, x, i);
    PrefixValue(s, x, i + 8);
    Pow2Values();
    DivModUnique(Decode(s[..i + 8]), 256, Decode(s[..i]), Decode(g));
  }

  /** Eight digits of a byte read back give the byte. */
  lemma ByteDigitsValue(b: nat)
    requires b < 256
    ensures Decode(Bits(b, 8)) == b
  {
    DecodeBits(b, 8);
    Pow2Values();
    DivModUnique(b, 256, 0, b);
  }

  /** The 128 digits of a value read back give the value. */
  lemma DigitsValue(v: u128)
    ensures Decode(Bits(v, 128)) == v
  {
    DecodeBits(v, 128);
    Pow2Values();
    DivModUnique(v, U128_LIMIT, 0, v);
  }

  /** Group `k`, read in base 2, is byte `15 - k` of the value. */
  lemma GroupValue(v: u128, k: nat)
    requires k < 16
    ensures Decode(Groups(v)[k]) == Byte(v, 15 - k)
  {
    var digits := Bits(v, 128);
    assert Groups(v)[k] == digits[8 * k .. 8 * k + 8];
    DigitsValue(v);
    SliceValue(digits, v, 8 * k);
    assert |digits| - 8 * k - 8 == 8 * (15 - k);
  }

  lemma GroupIsBinary(v: u128, k: nat)
    requires k < 16
    ensures IsBinary(Groups(v)[k])
  {
    var digits := Bits(v, 128);
    var g := Groups(v)[k];
    assert forall i :: 0 <= i < 8 ==> g[i] == digits[8 * k + i];
  }

  /** Group `k` is the digits of byte `15 - k`. */
  lemma GroupIsByte(v: u128, k: nat)
    requires k < 16
    ensures Groups(v)[k] == Bits(Byte(v, 15 - k), 8)
  {
    GroupValue(v, k);
    GroupIsBinary(v, k);
    ByteDigitsValue(Byte(v, 15 - k));
    DecodeInjective(Groups(v)[k], Bits(Byte(v, 15 - k), 8));
  }

  lemma GroupsAreBytes(v: u128)
    ensures Groups(v) == ByteGroups(AllBytes(v))
  {
    forall k | 0 <= k < 16
      ensures Groups(v)[k] == ByteGroups(AllBytes(v))[k]
    {
      GroupIsByte(v, k);
    }
  }

  /** A byte is written as the all-zero group exactly when it is zero. */
  lemma ZeroGroupIffZero(b: nat)
    requires b < 256
    ensures Bits(b, 8) == ZERO_GROUP <==> b == 0
  {
    assert Bits(0, 8) == ZERO_GROUP by {
      forall k | 0 <= k < 8 ensures Bits(0, 8)[k] == '0' {
        BitsDigit(0, 8, k);
        assert 0 / Pow2(7 - k) == 0;
      }
    }
    DecodeBits(b, 8);
    DecodeBits(0, 8);
    Pow2Values();
  }

  lemma {:induction false} DropZeroGroupsOfBytes(bs: seq<nat>)
    requires forall j :: 0 <= j < |bs| ==> bs[j] < 256
    ensures DropZeroGroups(ByteGroups(bs)) == ByteGroups(NonZero(bs))
    decreases |bs|
  {
    if |bs| > 0 {
      ZeroGroupIffZero(bs[0]);
      assert ByteGroups(bs)[1..] == ByteGroups(bs[1..]);
      DropZeroGroupsOfBytes(bs[1..]);
      if bs[0] != 0 {
        assert ByteGroups([bs[0]] + NonZero(bs[1..])) == [Bits(bs[0], 8)] + ByteGroups(NonZero(bs[1..]));
      }
    }
  }

  // ---------------------------------------------------------------------
  // The fold and trim lay the groups out with single blanks

  lemma {:induction false} FoldSpacesJoins(acc: string, gs: seq<string>)
    requires |gs| > 0
    ensures FoldSpaces(acc, gs) == acc + " " + JoinSpaces(gs)
    decreases |gs|
  {
    if |gs| > 1 {
      FoldSpacesJoins(acc + " " + gs[0], gs[1..]);
    }
  }

  /** The words of `gs` separated by single blanks: no blank at either end
      and never two blanks in a row. */
  lemma {:induction false} JoinSpacesShape(gs: seq<string>)
    requires forall j :: 0 <= j < |gs| ==> IsWord(gs[j])
    ensures var s := JoinSpaces(gs);
      && (|s| == 0 <==> |gs| == 0)
      && (|s| > 0 ==> s[0] != ' ' && s[|s| - 1] != ' ')
      && (forall k :: 0 <= k < |s| - 1 && s[k] == ' ' ==> s[k + 1] != ' ')
    decreases |gs|
  {
    if |gs| > 1 {
      JoinSpacesShape(gs[1..]);
      var s := JoinSpaces(gs);
      var rest := JoinSpaces(gs[1..]);
      assert s == gs[0] + " " + rest;
      forall k | 0 <= k < |s| - 1 && s[k] == ' '
        ensures s[k + 1] != ' '
      {
        if k > |gs[0]| {
          assert s[k] == rest[k - |gs[0]| - 1];
        }
      }
    }
  }

  lemma TrimLeadingBlank(s: string)
    requires |s| > 0 && s[0] != ' ' && s[|s| - 1] != ' '
    ensures Trim(" " + s) == s
  {
    assert (" " + s)[1..] == s;
    assert TrimStart(" " + s) == TrimStart(s);
  }

  lemma TrimJoined(gs: seq<string>)
    requires forall j :: 0 <= j < |gs| ==> IsWord(gs[j])
    ensures Trim(FoldSpaces("", gs)) == JoinSpaces(gs)
  {
    if |gs| > 0 {
      JoinSpacesShape(gs);
      FoldSpacesJoins("", gs);
      assert "" + " " + JoinSpaces(gs) == " " + JoinSpaces(gs);
      TrimLeadingBlank(JoinSpaces(gs));
    }
  }

  /** Splitting at the blanks recovers the words that were joined. */
  lemma {:induction false} SplitJoinSpaces(gs: seq<string>)
    requires forall j :: 0 <= j < |gs| ==> IsWord(gs[j])
    ensures Split(JoinSpaces(gs)) == gs
    decreases |gs|
  {
    if |gs| == 1 {
      assert FirstBlank(gs[0]) == |gs[0]|;
    } else if |gs| > 1 {
      var s := JoinSpaces(gs);
      var g := gs[0];
      assert s == g + " " + JoinSpaces(gs[1..]);
      assert s[|g|] == ' ';
      assert FirstBlank(s) == |g| by {
        assert forall k :: 0 <= k < |g| ==> s[k] == g[k];
      }
      assert s[..|g|] == g;
      assert s[|g| + 1..] == JoinSpaces(gs[1..]);
      SplitJoinSpaces(gs[1..]);
    }
  }

  lemma {:induction false} RemoveBlanksJoin(gs: seq<string>)
    requires forall j :: 0 <= j < |gs| ==> IsWord(gs[j])
    ensures RemoveBlanks(JoinSpaces(gs)) == Concat(gs)
    decreases |gs|
  {
    if |gs| == 1 {
      NoBlanksKept(gs[0]);
      assert Concat(gs) == gs[0] + Concat([]);
    } else if |gs| > 1 {
      RemoveBlanksJoin(gs[1..]);
      RemoveBlanksAppend(gs[0], " " + JoinSpaces(gs[1..]));
      NoBlanksKept(gs[0]);
      assert (" " + JoinSpaces(gs[1..]))[1..] == JoinSpaces(gs[1..]);
      assert gs[0] + " " + JoinSpaces(gs[1..]) == gs[0] + (" " + JoinSpaces(gs[1..]));
    }
  }

  lemma {:induction false} RemoveBlanksAppend(a: string, b: string)
    ensures RemoveBlanks(a + b) == RemoveBlanks(a) + RemoveBlanks(b)
    decreases |a|
  {
    if |a| > 0 {
      assert (a + b)[1..] == a[1..] + b;
      RemoveBlanksAppend(a[1..], b);
    } else {
      assert a + b == b;
    }
  }

  lemma {:induction false} NoBlanksKept(g: string)
    requires forall k :: 0 <= k < |g| ==> g[k] != ' '
    ensures RemoveBlanks(g) == g
    decreases |g|
  {
    if |g| > 0 {
      NoBlanksKept(g[1..]);
      assert g == [g[0]] + g[1..];
    }
  }

  lemma ByteGroupsAreWords(bs: seq<nat>)
    ensures forall j :: 0 <= j < |bs| ==> IsWord(ByteGroups(bs)[j]) && |ByteGroups(bs)[j]| == 8
  {
  }

  // ---------------------------------------------------------------------
  // What `tobin` produces

  /** The output is the non-zero bytes of the value, most significant first,
      each as eight binary digits, separated by single blanks; splitting it at
      the blanks gives those groups back. */
  lemma TobinGroups(v: u128)
    ensures Tobin(v) == JoinSpaces(ByteGroups(NonZero(AllBytes(v))))
    ensures Split(Tobin(v)) == ByteGroups(NonZero(AllBytes(v)))
  {
    var gs := ByteGroups(NonZero(AllBytes(v)));
    GroupsAreBytes(v);
    DropZeroGroupsOfBytes(AllBytes(v));
    ByteGroupsAreWords(NonZero(AllBytes(v)));
    TrimJoined(gs);
    SplitJoinSpaces(gs);
  }

  lemma {:induction false} JoinSpacesAlphabet(gs: seq<string>)
    requires forall j :: 0 <= j < |gs| ==> IsBinary(gs[j])
    ensures forall k :: 0 <= k < |JoinSpaces(gs)| ==>
      JoinSpaces(gs)[k] in {'0', '1', ' '}
    decreases |gs|
  {
    if |gs| > 1 {
      JoinSpacesAlphabet(gs[1..]);
      var rest := JoinSpaces(gs[1..]);
      var s := JoinSpaces(gs);
      assert s == gs[0] + " " + rest;
      forall k | 0 <= k < |s|
        ensures s[k] in {'0', '1', ' '}
      {
        if k > |gs[0]| {
          assert s[k] == rest[k - |gs[0]| - 1];
        }
      }
    }
  }

  /** The output holds only the digits '0' and '1' and the blank. */
  lemma TobinAlphabet(v: u128)
    ensures forall k :: 0 <= k < |Tobin(v)| ==> Tobin(v)[k] in {'0', '1', ' '}
  {
    TobinGroups(v);
    JoinSpacesAlphabet(ByteGroups(NonZero(AllBytes(v))));
  }

  /** The output never starts or ends with a blank, and blanks are single. */
  lemma TobinSpacing(v: u128)
    ensures |Tobin(v)| > 0 ==> Tobin(v)[0] != ' ' && Tobin(v)[|Tobin(v)| - 1] != ' '
    ensures forall k :: 0 <= k < |Tobin(v)| - 1 && Tobin(v)[k] == ' ' ==> Tobin(v)[k + 1] != ' '
  {
    TobinGroups(v);
    ByteGroupsAreWords(NonZero(AllBytes(v)));
    JoinSpacesShape(ByteGroups(NonZero(AllBytes(v))));
  }

  lemma NonZeroBound(bs: seq<nat>)
    requires forall j :: 0 <= j < |bs| ==> bs[j] < 256
    ensures forall j :: 0 <= j < |NonZero(bs)| ==> NonZero(bs)[j] < 256
  {
    forall j | 0 <= j < |NonZero(bs)|
      ensures NonZero(bs)[j] < 256
    {
      var x := NonZero(bs)[j];
      assert x in bs;
      var i :| 0 <= i < |bs| && bs[i] == x;
    }
  }

  /** Every blank-separated group has eight binary digits, is not all zero,
      and read in base 2 is the corresponding non-zero byte of the value,
      most significant first. */
  lemma TobinGroupShape(v: u128)
    ensures var gs := Split(Tobin(v));
      && |gs| == |NonZero(AllBytes(v))|
      && forall j :: 0 <= j < |gs| ==>
        && |gs[j]| == 8
        && IsBinary(gs[j])
        && gs[j] != ZERO_GROUP
        && Decode(gs[j]) == NonZero(AllBytes(v))[j]
  {
    var nz := NonZero(AllBytes(v));
    TobinGroups(v);
    NonZeroBound(AllBytes(v));
    NonZeroGroupsShape(nz);
  }

  lemma NonZeroGroupsShape(nz: seq<nat>)
    requires forall j :: 0 <= j < |nz| ==> 0 < nz[j] < 256
    ensures forall j :: 0 <= j < |nz| ==>
      && |ByteGroups(nz)[j]| == 8
      && IsBinary(ByteGroups(nz)[j])
      && ByteGroups(nz)[j] != ZERO_GROUP
      && Decode(ByteGroups(nz)[j]) == nz[j]
  {
    forall j | 0 <= j < |nz|
      ensures Bits(nz[j], 8) != ZERO_GROUP && Decode(Bits(nz[j], 8)) == nz[j]
    {
      ZeroGroupIffZero(nz[j]);
      ByteDigitsValue(nz[j]);
    }
  }

  lemma {:induction false} NonZeroEmpty(bs: seq<nat>)
    requires NonZero(bs) == []
    ensures forall j :: 0 <= j < |bs| ==> bs[j] == 0
    decreases |bs|
  {
    if |bs| > 0 {
      NonZeroEmpty(bs[1..]);
      assert forall j :: 1 <= j < |bs| ==> bs[j] == bs[1..][j - 1];
    }
  }

  lemma {:induction false} DecodeZeroGroups(gs: seq<string>)
    requires forall j :: 0 <= j < |gs| ==> gs[j] == ZERO_GROUP
    ensures Decode(Concat(gs)) == 0
    decreases |gs|
  {
    if |gs| > 0 {
      DecodeZeroGroups(gs[1..]);
      DecodeAppend(ZERO_GROUP, Concat(gs[1..]));
      DecodeZeros(ZERO_GROUP);
    }
  }

  lemma ZeroBytesZeroGroups(v: u128)
    requires forall j :: 0 <= j < 16 ==> AllBytes(v)[j] == 0
    ensures forall k :: 0 <= k < 16 ==> Groups(v)[k] == ZERO_GROUP
  {
    forall k | 0 <= k < 16
      ensures Groups(v)[k] == ZERO_GROUP
    {
      GroupIsByte(v, k);
      assert Byte(v, 15 - k) == AllBytes(v)[k];
      ZeroGroupIffZero(Byte(v, 15 - k));
    }
  }

  /** The value is zero exactly when every one of its bytes is. */
  lemma ZeroIffZeroBytes(v: u128)
    ensures v == 0 <==> forall j :: 0 <= j < 16 ==> AllBytes(v)[j] == 0
  {
    if forall j :: 0 <= j < 16 ==> AllBytes(v)[j] == 0 {
      ZeroBytesZeroGroups(v);
      DecodeZeroGroups(Groups(v));
      ConcatGroups(v);
      DigitsValue(v);
    }
  }

  /** There are as many groups as the value has non-zero bytes; the
      output is empty exactly for zero. */
  lemma TobinGroupCount(v: u128)
    ensures |Split(Tobin(v))| == |NonZero(AllBytes(v))|
    ensures Tobin(v) == "" <==> v == 0
  {
    TobinGroups(v);
    var nz := NonZero(AllBytes(v));
    ByteGroupsAreWords(nz);
    JoinSpacesShape(ByteGroups(nz));
    ZeroIffZeroBytes(v);
    if nz == [] {
      NonZeroEmpty(AllBytes(v));
    }
    if v == 0 {
      assert forall j :: 0 <= j < 16 ==> AllBytes(v)[j] == 0;
      AllZeroNonZero(AllBytes(v));
    }
  }

  lemma {:induction false} AllZeroNonZero(bs: seq<nat>)
    requires forall j :: 0 <= j < |bs| ==> bs[j] == 0
    ensures NonZero(bs) == []
    decreases |bs|
  {
    if |bs| > 0 {
      AllZeroNonZero(bs[1..]);
    }
  }

  // ---------------------------------------------------------------------
  // Reading the digits back

  /** Drops the all-zero groups at the front only. */
  function DropLeadingZeroGroups(gs: seq<string>): (r: seq<string>)
    ensures |r| <= |gs| && r == gs[|gs| - |r|..]
    ensures forall j :: 0 <= j < |gs| - |r| ==> gs[j] == ZERO_GROUP
    ensures |r| > 0 ==> r[0] != ZERO_GROUP
  {
    if |gs| > 0 && gs[0] == ZERO_GROUP then
      var r := DropLeadingZeroGroups(gs[1..]);
      assert forall j :: 1 <= j < |gs| - |r| ==> gs[j] == gs[1..][j - 1];
      r
    else gs
  }

  lemma {:induction false} ConcatSlices(s: string, n: nat)
    requires |s| == 8 * n
    ensures Concat(seq(n, k requires 0 <= k < n => s[8 * k .. 8 * k + 8])) == s
    decreases n
  {
    var gs := seq(n, k requires 0 <= k < n => s[8 * k .. 8 * k + 8]);
    if n > 0 {
      var rest := s[8..];
      ConcatSlices(rest, n - 1);
      SlicesTail(s, n);
      assert s == s[..8] + rest;
    }
  }

  /** Dropping the first eight-digit slice leaves the slices of the rest. */
  lemma SlicesTail(s: string, n: nat)
    requires |s| == 8 * n && n > 0
    ensures seq(n, k requires 0 <= k < n => s[8 * k .. 8 * k + 8])[1..] ==
            seq(n - 1, k requires 0 <= k < n - 1 => s[8..][8 * k .. 8 * k + 8])
  {
    var gs := seq(n, k requires 0 <= k < n => s[8 * k .. 8 * k + 8]);
    var gs' := seq(n - 1, k requires 0 <= k < n - 1 => s[8..][8 * k .. 8 * k + 8]);
    forall k | 0 <= k < n - 1
      ensures gs[1..][k] == gs'[k]
    {
      SliceOfRest(s, k);
    }
  }

  /** Slice `k` of the digits after the first eight is slice `k + 1` of all. */
  lemma SliceOfRest(s: string, k: nat)
    requires 8 * k + 16 <= |s|
    ensures s[8..][8 * k .. 8 * k + 8] == s[8 * (k + 1) .. 8 * (k + 1) + 8]
  {
    assert 8 * (k + 1) == 8 * k + 8;
  }

  /** The groups, put back together, are the 128 digits of the value. */
  lemma ConcatGroups(v: u128)
    ensures Concat(Groups(v)) == Bits(v, 128)
  {
    ConcatSlices(Bits(v, 128), 16);
  }

  lemma {:induction false} ConcatAppend(a: seq<string>, b: seq<string>)
    ensures Concat(a + b) == Concat(a) + Concat(b)
    decreases |a|
  {
    if |a| > 0 {
      assert (a + b)[1..] == a[1..] + b;
      ConcatAppend(a[1..], b);
    } else {
      assert a + b == b;
    }
  }

  /** Dropping all-zero groups at the front does not change the value the
      digits encode. */
  lemma {:induction false} DecodeDropLeading(gs: seq<string>)
    ensures Decode(Concat(DropLeadingZeroGroups(gs))) == Decode(Concat(gs))
    decreases |gs|
  {
    if |gs| > 0 && gs[0] == ZERO_GROUP {
      DecodeDropLeading(gs[1..]);
      assert Concat(gs) == gs[0] + Concat(gs[1..]);
      DecodeZeroPrefix(gs[0], Concat(gs[1..]));
    }
  }

  /** An all-zero group in front adds nothing to the value. */
  lemma DecodeZeroPrefix(z: string, s: string)
    requires z == ZERO_GROUP
    ensures Decode(z + s) == Decode(s)
  {
    DecodeAppend(z, s);
    DecodeZeros(z);
  }

  /** When every all-zero group precedes every other group, dropping all of
      them is dropping the leading ones. */
  lemma {:induction false} DropZeroGroupsLeading(gs: seq<string>)
    requires forall i, j :: 0 <= i < j < |gs| && gs[i] != ZERO_GROUP ==> gs[j] != ZERO_GROUP
    ensures DropZeroGroups(gs) == DropLeadingZeroGroups(gs)
    decreases |gs|
  {
    if |gs| > 0 {
      if gs[0] == ZERO_GROUP {
        DropZeroGroupsLeading(gs[1..]);
      } else {
        KeepsNonZeroGroups(gs);
      }
    }
  }

  lemma {:induction false} KeepsNonZeroGroups(gs: seq<string>)
    requires forall j :: 0 <= j < |gs| ==> gs[j] != ZERO_GROUP
    ensures DropZeroGroups(gs) == gs
    decreases |gs|
  {
    if |gs| > 0 {
      KeepsNonZeroGroups(gs[1..]);
    }
  }

  lemma GroupsAreWords(v: u128)
    ensures forall k :: 0 <= k < 16 ==> IsWord(Groups(v)[k]) && IsBinary(Groups(v)[k])
  {
    forall k | 0 <= k < 16
      ensures IsWord(Groups(v)[k]) && IsBinary(Groups(v)[k])
    {
      GroupIsBinary(v, k);
    }
  }

  /** `tobin` with only the leading all-zero groups dropped. */
  function TobinLeadingOnly(v: u128): string {
    Trim(FoldSpaces("", DropLeadingZeroGroups(Groups(v))))
  }

  /** Removing the blanks and reading the digits in base 2 gives the value
      back, for every value. */
  lemma TobinLeadingOnlyRoundTrip(v: u128)
    ensures Decode(RemoveBlanks(TobinLeadingOnly(v))) == v
  {
    var gs := DropLeadingZeroGroups(Groups(v));
    GroupsAreWords(v);
    assert forall j :: 0 <= j < |gs| ==> gs[j] == Groups(v)[16 - |gs| + j];
    TobinLeadingOnlyJoins(v);
    RemoveBlanksJoin(gs);
    DecodeDropLeading(Groups(v));
    ConcatGroups(v);
    DigitsValue(v);
  }

  /** Different values are written differently. */
  lemma TobinLeadingOnlyInjective(a: u128, b: u128)
    requires TobinLeadingOnly(a) == TobinLeadingOnly(b)
    ensures a == b
  {
    TobinLeadingOnlyRoundTrip(a);
    TobinLeadingOnlyRoundTrip(b);
  }

  /** When no byte below the most significant non-zero byte is zero, `tobin`
      drops only leading groups, so removing the blanks and reading the
      digits in base 2 gives the value back. */
  lemma TobinRoundTrip(v: u128)
    requires NoInteriorZeroByte(v)
    ensures Tobin(v) == TobinLeadingOnly(v)
    ensures Decode(RemoveBlanks(Tobin(v))) == v
  {
    var gs := Groups(v);
    forall i, j | 0 <= i < j < 16 && gs[i] != ZERO_GROUP
      ensures gs[j] != ZERO_GROUP
    {
      GroupIsByte(v, i);
      GroupIsByte(v, j);
      ZeroGroupIffZero(Byte(v, 15 - i));
      ZeroGroupIffZero(Byte(v, 15 - j));
    }
    DropZeroGroupsLeading(gs);
    TobinLeadingOnlyRoundTrip(v);
  }

  // ---------------------------------------------------------------------
  // Examples

  lemma {:induction false} Pow2Monotone(a: nat, b: nat)
    requires a <= b
    ensures Pow2(a) <= Pow2(b)
    decreases b
  {
    if a < b {
      Pow2Monotone(a, b - 1);
    }
  }

  /** Byte `k` of a value below 256^k is zero. */
  lemma HighByteZero(v: nat, k: nat)
    requires 1 <= k && v < Pow2(8 * k)
    ensures Byte(v, k) == 0
  {
    DivModUnique(v, Pow2(8 * k), 0, v);
  }

  function Zeros(n: nat): (z: seq<nat>)
    ensures |z| == n && forall j :: 0 <= j < n ==> z[j] == 0
  {
    seq(n, _ => 0)
  }

  lemma {:induction false} NonZeroAppend(a: seq<nat>, b: seq<nat>)
    ensures NonZero(a + b) == NonZero(a) + NonZero(b)
    decreases |a|
  {
    if |a| > 0 {
      assert (a + b)[1..] == a[1..] + b;
      NonZeroAppend(a[1..], b);
    } else {
      assert a + b == b;
    }
  }

  lemma BytesOfSmall(v: u128)
    requires v < 256
    ensures AllBytes(v) == Zeros(15) + [v]
  {
    forall j | 0 <= j < 15
      ensures AllBytes(v)[j] == 0
    {
      HighByteOfSmall(v, 8, 15 - j);
    }
    assert Byte(v, 0) == v;
  }

  /** Byte `k >= 1` of a value below 2^w, for `w <= 8k`, is zero. */
  lemma HighByteOfSmall(v: nat, w: nat, k: nat)
    requires 1 <= k && w <= 8 * k && v < Pow2(w)
    ensures Byte(v, k) == 0
  {
    Pow2Monotone(w, 8 * k);
    HighByteZero(v, k);
  }

  lemma BytesOf256(v: u128)
    requires v == 256
    ensures AllBytes(v) == Zeros(14) + [1, 0]
  {
    var bs := AllBytes(v);
    HighBytesOf256(v);
    LowBytesOf256(v);
    assert bs == Zeros(14) + [1, 0] by {
      forall j | 0 <= j < 16
        ensures bs[j] == (Zeros(14) + [1, 0])[j]
      {
      }
    }
  }

  lemma HighBytesOf256(v: u128)
    requires v == 256
    ensures forall j :: 0 <= j < 14 ==> AllBytes(v)[j] == 0
  {
    assert Pow2(8) == 256;
    Pow2Add(8, 8);
    assert v < Pow2(16);
    forall j | 0 <= j < 14
      ensures AllBytes(v)[j] == 0
    {
      HighByteOfSmall(v, 16, 15 - j);
    }
  }

  lemma LowBytesOf256(v: u128)
    requires v == 256
    ensures AllBytes(v)[14] == 1 && AllBytes(v)[15] == 0
  {
    assert Pow2(8) == 256;
    DivModUnique(v, Pow2(8), 1, 0);
    assert Byte(v, 1) == 1;
    assert Byte(v, 0) == 0;
  }

  /** `tobin(2)` is "00000010". */
  lemma TobinOfTwo()
    ensures Tobin(2) == "00000010"
  {
    TobinGroups(2);
    BytesOfSmall(2);
    NonZeroAppend(Zeros(15), [2]);
    AllZeroNonZero(Zeros(15));
    assert NonZero(AllBytes(2)) == [2];
    BitsOfTwo();
  }

  lemma BitsOfTwo()
    ensures Bits(2, 8) == "00000010"
  {
    forall k | 0 <= k < 8
      ensures Bits(2, 8)[k] == "00000010"[k]
    {
      BitsDigit(2, 8, k);
      SmallBit(2, 7 - k);
    }
  }

  /** Bit `i` of a value below 4. */
  lemma SmallBit(v: nat, i: nat)
    requires v < 4
    ensures Bit(v, i) <==> (i == 0 && v % 2 == 1) || (i == 1 && v >= 2)
  {
    if i >= 2 {
      Pow2Monotone(2, i);
      DivModUnique(v, Pow2(i), 0, v);
    } else if i == 1 {
      assert Pow2(1) == 2;
    }
  }

  lemma BitsOfOne()
    ensures Bits(1, 8) == "00000001"
  {
    forall k | 0 <= k < 8
      ensures Bits(1, 8)[k] == "00000001"[k]
    {
      BitsDigit(1, 8, k);
      SmallBit(1, 7 - k);
    }
  }

  /** The values 1 and 256 are written alike: the all-zero low byte of 256
      is dropped although a non-zero byte precedes it. */
  lemma TobinMergesInteriorZero()
    ensures Tobin(1) == "00000001"
    ensures Tobin(256) == "00000001"
  {
    TobinOfOne();
    var v: u128 := 256;
    TobinOf256(v);
  }

  lemma TobinOfOne()
    ensures Tobin(1) == "00000001"
  {
    BitsOfOne();
    TobinGroups(1);
    BytesOfSmall(1);
    NonZeroAppend(Zeros(15), [1]);
    AllZeroNonZero(Zeros(15));
    assert NonZero(AllBytes(1)) == [1];
  }

  lemma TobinOf256(v: u128)
    requires v == 256
    ensures Tobin(v) == "00000001"
  {
    BitsOfOne();
    TobinGroups(v);
    BytesOf256(v);
    NonZeroAppend(Zeros(14), [1, 0]);
    AllZeroNonZero(Zeros(14));
    assert NonZero([1, 0]) == [1];
    assert NonZero(AllBytes(v)) == [1];
  }

  /** Dropping only the leading all-zero groups writes 256 as two groups. */
  lemma TobinLeadingOnlyOf256()
    ensures TobinLeadingOnly(256) == "00000001 00000000"
  {
    var v: u128 := 256;
    LeadingOnlyOf256(v);
  }

  lemma LeadingOnlyOf256(v: u128)
    requires v == 256
    ensures TobinLeadingOnly(v) == "00000001 00000000"
  {
    LeadingGroupsOf256(v);
    TobinLeadingOnlyJoins(v);
    JoinTwo("00000001", ZERO_GROUP);
    TwoGroupsLiteral();
  }

  lemma JoinTwo(a: string, b: string)
    ensures JoinSpaces([a, b]) == a + " " + b
  {
    assert [a, b][1..] == [b];
  }

  /** `TobinLeadingOnly` lays out the groups left after dropping the
      leading all-zero ones, separated by single blanks. */
  lemma TobinLeadingOnlyJoins(v: u128)
    ensures TobinLeadingOnly(v) == JoinSpaces(DropLeadingZeroGroups(Groups(v)))
  {
    var gs := DropLeadingZeroGroups(Groups(v));
    GroupsAreWords(v);
    assert forall j :: 0 <= j < |gs| ==> gs[j] == Groups(v)[16 - |gs| + j];
    TrimJoined(gs);
  }

  lemma LeadingGroupsOf256(v: u128)
    requires v == 256
    ensures DropLeadingZeroGroups(Groups(v)) == ["00000001", ZERO_GROUP]
  {
    var gs, bs := Groups(v), AllBytes(v);
    BytesOf256(v);
    GroupsAreBytes(v);
    ZeroGroupIffZero(0);
    BitsOfOne();
    forall j | 0 <= j < 14
      ensures gs[j] == ZERO_GROUP
    {
      assert gs[j] == Bits(bs[j], 8) && bs[j] == 0;
    }
    assert gs[14] == Bits(1, 8) by {
      assert gs[14] == Bits(bs[14], 8) && bs[14] == 1;
    }
    assert gs[15] == ZERO_GROUP by {
      assert gs[15] == Bits(bs[15], 8) && bs[15] == 0;
    }
    DropToLastTwo(gs, "00000001", ZERO_GROUP);
  }

  /** Sixteen groups of which only the last two may be kept. */
  lemma DropToLastTwo(gs: seq<string>, a: string, b: string)
    requires |gs| == 16 && gs[14] == a && gs[15] == b && a != ZERO_GROUP
    requires forall j :: 0 <= j < 14 ==> gs[j] == ZERO_GROUP
    ensures DropLeadingZeroGroups(gs) == [a, b]
  {
    DropLeadingUpTo(gs, 14);
    assert gs[14..] == [a, b];
  }

  /** With `p` all-zero groups in front of a non-zero one, exactly those
      are dropped. */
  lemma {:induction false} DropLeadingUpTo(gs: seq<string>, p: nat)
    requires p < |gs| && gs[p] != ZERO_GROUP
    requires forall j :: 0 <= j < p ==> gs[j] == ZERO_GROUP
    ensures DropLeadingZeroGroups(gs) == gs[p..]
    decreases p
  {
    if p > 0 {
      assert gs[1..][p - 1] == gs[p];
      DropLeadingUpTo(gs[1..], p - 1);
      assert gs[1..][p - 1..] == gs[p..];
    }
  }

  lemma TwoGroupsLiteral()
    ensures "00000001" + " " + ZERO_GROUP == "00000001 00000000"
  {
  }
}
