/** Zero-padded decimal numbers, as in the format directive `%0*d`, and the keys made of them. */
module Decimal {
  import opened Arithmetic
  import opened Wrappers

  function Digit(d: nat): char
    requires d < 10
  {
    '0' + d as char
  }

  predicate IsDigit(c: char) {
    '0' <= c <= '9'
  }

  predicate AllDigits(s: string) {
    forall i :: 0 <= i < |s| ==> IsDigit(s[i])
  }

  function Show(n: nat): string {
    if n < 10 then [Digit(n)] else Show(n / 10) + [Digit(n % 10)]
  }

  function Zeros(n: nat): (s: string)
    ensures |s| == n && forall i :: 0 <= i < n ==> s[i] == '0'
  {
    seq(n, _ => '0')
  }

  /** At least width characters, filled up with zeros. */
  function Padded(n: nat, width: int): string {
    if width > |Show(n)| then Zeros(width - |Show(n)|) + Show(n) else Show(n)
  }

  /** The number a string of digits stands for. */
  function Value(s: string): nat
    requires AllDigits(s)
  {
    if s == "" then 0 else Value(s[..|s| - 1]) * 10 + (s[|s| - 1] - '0') as nat
  }

  function Parse(s: string): Option<nat> {
    if s != "" && AllDigits(s) then Some(Value(s)) else None
  }

  lemma {:induction false} ValueOfShow(n: nat)
    ensures AllDigits(Show(n)) && Show(n) != "" && Value(Show(n)) == n
  {
    if n >= 10 {
      ValueOfShow(n / 10);
      assert Show(n)[..|Show(n)| - 1] == Show(n / 10);
    }
  }

  lemma {:induction false} LeadingZeros(k: nat, s: string)
    requires AllDigits(s)
    ensures AllDigits(Zeros(k) + s) && Value(Zeros(k) + s) == Value(s)
    decreases |s|, k
  {
    var t := Zeros(k) + s;
    if s != "" {
      LeadingZeros(k, s[..|s| - 1]);
      assert t[..|t| - 1] == Zeros(k) + s[..|s| - 1];
    } else if k > 0 {
      LeadingZeros(k - 1, s);
      assert t[..|t| - 1] == Zeros(k - 1) + s;
    }
  }

  /** Reading a padded number gives it back, whatever the width. */
  lemma ParsePadded(n: nat, width: int)
    ensures Parse(Padded(n, width)) == Some(n)
  {
    ValueOfShow(n);
    if width > |Show(n)| {
      LeadingZeros(width - |Show(n)|, Show(n));
    }
  }

  lemma {:induction false} ShowLength(n: nat, k: nat)
    requires k > 0
    ensures |Show(n)| <= k <==> n < Pow10(k)
  {
    if n >= 10 && k > 1 {
      ShowLength(n / 10, k - 1);
    } else if k > 1 {
      assert Pow10(k - 1) >= 1;
    } else {
      assert Pow10(1) == 10 * Pow10(0);
      ValueOfShow(n / 10);
    }
  }

  /** A padded number has exactly the asked width when it fits, and is longer when it does not. */
  lemma PaddedLength(n: nat, width: nat)
    requires width > 0
    ensures |Padded(n, width)| >= width
    ensures |Padded(n, width)| == width <==> n < Pow10(width)
  {
    ShowLength(n, width);
  }

  // ----- keys ----------------------------------------------------------------------------

  /** The digits fill the key size that the prefix leaves, and there is at least one. */
  function PadWidth(prefix: string, keySize: int): int {
    if keySize - |prefix| < 1 then 1 else keySize - |prefix|
  }

  function FormatKey(prefix: string, keySize: int, index: nat): string {
    prefix + Padded(index, PadWidth(prefix, keySize))
  }

  function KeyIndex(prefix: string, key: string): Option<nat> {
    if prefix <= key then Parse(key[|prefix|..]) else None
  }

  /** The index can be read off the key, so equal keys have equal indices, whatever the sizes asked for. */
  lemma KeyGivesIndex(prefix: string, keySize: int, index: nat)
    ensures KeyIndex(prefix, FormatKey(prefix, keySize, index)) == Some(index)
  {
    var key := FormatKey(prefix, keySize, index);
    assert key[|prefix|..] == Padded(index, PadWidth(prefix, keySize));
    ParsePadded(index, PadWidth(prefix, keySize));
  }

  lemma KeysAreDistinct(prefix: string, keySize: int, i: nat, j: nat)
    ensures FormatKey(prefix, keySize, i) == FormatKey(prefix, keySize, j) <==> i == j
  {
    KeyGivesIndex(prefix, keySize, i);
    KeyGivesIndex(prefix, keySize, j);
  }

  /** A key has the configured size exactly when the prefix leaves room for the digits of its index. */
  lemma KeyHasSize(prefix: string, keySize: nat, index: nat)
    ensures |FormatKey(prefix, keySize, index)| == keySize <==>
            keySize > |prefix| && index < Pow10(keySize - |prefix|)
  {
    PaddedLength(index, PadWidth(prefix, keySize));
  }

  /** All keys of a key space have one length exactly when its largest index fits the padding. */
  lemma KeysHaveOneLength(prefix: string, keySize: int, keysCount: nat)
    requires keysCount > 0
    ensures (forall i: nat :: i < keysCount ==>
               |FormatKey(prefix, keySize, i)| == |FormatKey(prefix, keySize, 0)|) <==>
            keysCount - 1 < Pow10(PadWidth(prefix, keySize))
  {
    var w := PadWidth(prefix, keySize);
    PaddedLength(0, w);
    if keysCount - 1 < Pow10(w) {
      forall i: nat | i < keysCount
        ensures |FormatKey(prefix, keySize, i)| == |FormatKey(prefix, keySize, 0)|
      {
        PaddedLength(i, w);
      }
    } else {
      PaddedLength(keysCount - 1, w);
      assert |FormatKey(prefix, keySize, keysCount - 1)| != |FormatKey(prefix, keySize, 0)|;
    }
  }

  /** Keys of the documented form. */
  lemma DocumentedKeys()
    ensures FormatKey("test:", 16, 0) == "test:00000000000"
    ensures FormatKey("k:", 8, 360) == "k:000360"
    ensures FormatKey("longprefix:", 4, 7) == "longprefix:7"
  {
    assert Show(0) == "0" && Show(7) == "7";
    assert Show(3) == "3" && Show(36) == "36" && Show(360) == "360";
    assert Zeros(10) == "0000000000" && Zeros(3) == "000";
  }
}
