/**
 * The text sensors of the JK battery driver: the error and operation-mode bitmasks
 * turned into `;`-separated label lists (`error_bits_to_string_`,
 * `mode_bits_to_string_`) and the battery-type lookup.
 */
module JkBmsText {
  import opened Bytes
  import opened Bits

  /** `ERRORS`: the label of each error bit, bit 0 first. */
  const Errors: seq<string> := [
    "Low capacity",
    "Power tube overtemperature",
    "Charging overvoltage",
    "Discharging undervoltage",
    "Battery over temperature",
    "Charging overcurrent",
    "Discharging overcurrent",
    "Cell pressure difference",
    "Overtemperature alarm in the battery box",
    "Battery low temperature",
    "Cell overvoltage",
    "Cell undervoltage",
    "309_A protection",
    "309_A protection"
  ]

  /** `OPERATION_MODES`: the label of each mode bit, bit 0 first. */
  const OperationModes: seq<string> := [
    "Charging enabled",
    "Discharging enabled",
    "Balancer enabled",
    "Battery dropped"
  ]

  /** `BATTERY_TYPES`, indexed by the raw battery-type byte. */
  const BatteryTypes: seq<string> := [
    "Lithium Iron Phosphate",
    "Ternary Lithium",
    "Lithium Titanate"
  ]

  const Separator: char := ';'

  /** Strings in which the separator does not occur. */
  predicate NoSeparator(s: string) {
    ';' !in s
  }

  /** The labels of the set bits among the first n, in ascending bit order. */
  function SetLabels(mask: nat, labels: seq<string>, n: nat): (r: seq<string>)
    requires n <= |labels|
    ensures |r| <= n
    decreases n
  {
    if n == 0 then []
    else SetLabels(mask, labels, n - 1) + (if BitSet(mask, n - 1) then [labels[n - 1]] else [])
  }

  /** The parts with one separator between neighbours, none before or after. */
  function Join(parts: seq<string>): string
    decreases |parts|
  {
    if parts == [] then ""
    else if |parts| == 1 then parts[0]
    else parts[0] + [Separator] + Join(parts[1..])
  }

  /** The label text of a mask: the labels of its set bits, joined. */
  function BitsText(mask: nat, labels: seq<string>): string {
    Join(SetLabels(mask, labels, |labels|))
  }

  function ErrorsText(mask: uint16): string { BitsText(mask, Errors) }

  function ModesText(mask: uint16): string { BitsText(mask, OperationModes) }

  /** Appending a part puts one separator between the old text and the new part. */
  lemma {:induction false} JoinSnoc(parts: seq<string>, x: string)
    requires parts != []
    ensures Join(parts + [x]) == Join(parts) + [Separator] + x
    decreases |parts|
  {
    if |parts| == 1 {
      assert parts + [x] == [parts[0], x];
    } else {
      assert (parts + [x])[1..] == parts[1..] + [x];
      JoinSnoc(parts[1..], x);
    }
  }

  /**
   * `error_bits_to_string_` and `mode_bits_to_string_`: for a nonzero mask, walk the
   * label table in bit order; for each set bit (`mask & (1 << i)`), append a separator
   * unless this is the first label, then the label.
   */
  method LabelBitsToString(mask: uint16, labels: seq<string>) returns (s: string)
    ensures s == BitsText(mask, labels)
  {
    var first := true;
    s := "";
    if mask != 0 {
      var i := 0;
      while i < |labels|
        invariant 0 <= i <= |labels|
        invariant s == Join(SetLabels(mask, labels, i))
        invariant first <==> SetLabels(mask, labels, i) == []
      {
        AndPow2(mask, i);
        if And(mask, Pow2(i)) != 0 {
          assert SetLabels(mask, labels, i + 1) == SetLabels(mask, labels, i) + [labels[i]];
          if first {
            assert SetLabels(mask, labels, i + 1) == [labels[i]];
            first := false;
            s := labels[i];
          } else {
            JoinSnoc(SetLabels(mask, labels, i), labels[i]);
            s := s + [Separator] + labels[i];
          }
        } else {
          assert SetLabels(mask, labels, i + 1) == SetLabels(mask, labels, i);
        }
        i := i + 1;
      }
    } else {
      ZeroMaskHasNoLabels(labels, |labels|);
    }
  }

  method ErrorBitsToString(mask: uint16) returns (s: string)
    ensures s == ErrorsText(mask)
  {
    s := LabelBitsToString(mask, Errors);
  }

  method ModeBitsToString(mask: uint16) returns (s: string)
    ensures s == ModesText(mask)
  {
    s := LabelBitsToString(mask, OperationModes);
  }

  /** A zero mask selects no label. */
  lemma {:induction false} ZeroMaskHasNoLabels(labels: seq<string>, n: nat)
    requires n <= |labels|
    ensures SetLabels(0, labels, n) == []
    decreases n
  {
    if n > 0 {
      ZeroMaskHasNoLabels(labels, n - 1);
      ZeroHasNoBits(n - 1);
    }
  }

  /** The text of mask 0 is empty. */
  lemma ZeroMaskText(labels: seq<string>)
    ensures BitsText(0, labels) == ""
  {
    ZeroMaskHasNoLabels(labels, |labels|);
  }

  /** A label is selected exactly when its bit is set. */
  lemma {:induction false} SetLabelsAgree(m1: nat, m2: nat, labels: seq<string>, n: nat)
    requires n <= |labels|
    requires forall k :: 0 <= k < n ==> (BitSet(m1, k) <==> BitSet(m2, k))
    ensures SetLabels(m1, labels, n) == SetLabels(m2, labels, n)
    decreases n
  {
    if n > 0 { SetLabelsAgree(m1, m2, labels, n - 1); }
  }

  /** Only the 14 error bits matter: bits 14 and 15 never show in the text. */
  lemma ErrorsTextIgnoresHighBits(m1: uint16, m2: uint16)
    requires forall k :: 0 <= k < |Errors| ==> (BitSet(m1, k) <==> BitSet(m2, k))
    ensures ErrorsText(m1) == ErrorsText(m2)
  {
    SetLabelsAgree(m1, m2, Errors, |Errors|);
  }

  /** Only the 4 mode bits matter: bits 4 to 15 never show in the text. */
  lemma ModesTextIgnoresHighBits(m1: uint16, m2: uint16)
    requires forall k :: 0 <= k < |OperationModes| ==> (BitSet(m1, k) <==> BitSet(m2, k))
    ensures ModesText(m1) == ModesText(m2)
  {
    SetLabelsAgree(m1, m2, OperationModes, |OperationModes|);
  }

  /** Mask 0x0003 selects the labels of bits 0 and 1 and no other. */
  lemma LowTwoBitsLabels()
    ensures SetLabels(0x0003, Errors, |Errors|) == [Errors[0], Errors[1]]
  {
    var m: nat := 0x0003;
    assert BitSet(m, 0) && BitSet(m, 1);
    assert m / 2 / 2 == 0;
    forall k | 2 <= k < 14 ensures !BitSet(m, k) {
      assert BitSet(m, k) == BitSet(m / 2 / 2, k - 2);
      ZeroBitsOf(m / 2 / 2, k - 2);
    }
    assert SetLabels(m, Errors, 1) == [Errors[0]] by {
      assert SetLabels(m, Errors, 0) == [];
    }
    assert SetLabels(m, Errors, 2) == [Errors[0], Errors[1]];
    SetLabelsNoneAbove(m, Errors, 2, 14);
  }

  /** Bits 0 and 1 set: the first two labels, in bit order, with one separator. */
  lemma ErrorsTextExample()
    ensures ErrorsText(0x0003) == "Low capacity;Power tube overtemperature"
  {
    LowTwoBitsLabels();
    assert Join([Errors[0], Errors[1]]) == Errors[0] + [Separator] + Errors[1];
  }

  /** Labels of clear bits between n and n' add nothing. */
  lemma {:induction false} SetLabelsNoneAbove(mask: nat, labels: seq<string>, n: nat, n': nat)
    requires n <= n' <= |labels|
    requires forall k :: n <= k < n' ==> !BitSet(mask, k)
    ensures SetLabels(mask, labels, n') == SetLabels(mask, labels, n)
    decreases n' - n
  {
    if n' > n { SetLabelsNoneAbove(mask, labels, n, n' - 1); }
  }

  // ---------------------------------------------------------------------------
  // Reading a list back
  // ---------------------------------------------------------------------------

  /** The pieces of s between separators: the reference reading for Join. */
  function Split(s: string): (r: seq<string>)
    ensures |r| >= 1
    decreases |s|
  {
    if s == [] then [""]
    else if s[0] == Separator then [""] + Split(s[1..])
    else var rest := Split(s[1..]); [[s[0]] + rest[0]] + rest[1..]
  }

  lemma {:induction false} SplitPlain(p: string)
    requires NoSeparator(p)
    ensures Split(p) == [p]
    decreases |p|
  {
    if p != [] { SplitPlain(p[1..]); assert [p[0]] + p[1..] == p; }
  }

  lemma {:induction false} SplitAfterPart(p: string, rest: string)
    requires NoSeparator(p)
    ensures Split(p + [Separator] + rest) == [p] + Split(rest)
    decreases |p|
  {
    var s := p + [Separator] + rest;
    if p == [] {
      assert s == [Separator] + rest;
      assert s[1..] == rest;
    } else {
      assert s[1..] == p[1..] + [Separator] + rest;
      SplitAfterPart(p[1..], rest);
      assert [p[0]] + p[1..] == p;
    }
  }

  /** A non-empty list of separator-free parts is recovered from its joined text. */
  lemma {:induction false} SplitJoin(parts: seq<string>)
    requires parts != []
    requires forall i :: 0 <= i < |parts| ==> NoSeparator(parts[i])
    ensures Split(Join(parts)) == parts
    decreases |parts|
  {
    if |parts| == 1 {
      SplitPlain(parts[0]);
    } else {
      SplitAfterPart(parts[0], Join(parts[1..]));
      SplitJoin(parts[1..]);
    }
  }

  /** No error label contains the separator (checked in three groups of labels). */
  lemma ErrorLabelHasNoSeparator(i: nat)
    requires i < |Errors|
    ensures NoSeparator(Errors[i])
  {
    if i < 5 { LowErrorLabels(i); } else if i < 10 { MiddleErrorLabels(i); } else { HighErrorLabels(i); }
  }

  lemma LowErrorLabels(i: nat)
    requires i < 5
    ensures NoSeparator(Errors[i])
  {
    if i == 0 {} else if i == 1 {} else if i == 2 {} else if i == 3 {} else {}
  }

  lemma MiddleErrorLabels(i: nat)
    requires 5 <= i < 10
    ensures NoSeparator(Errors[i])
  {
    if i == 5 {} else if i == 6 {} else if i == 7 {} else if i == 8 {} else {}
  }

  lemma HighErrorLabels(i: nat)
    requires 10 <= i < |Errors|
    ensures NoSeparator(Errors[i])
  {
    if i == 10 {} else if i == 11 {} else if i == 12 {} else {}
  }

  lemma ModeLabelHasNoSeparator(i: nat)
    requires i < |OperationModes|
    ensures NoSeparator(OperationModes[i])
  {
    if i == 0 {} else if i == 1 {} else if i == 2 {} else {}
  }

  lemma {:induction false} SetLabelsFrom(mask: nat, labels: seq<string>, n: nat, i: nat)
    requires n <= |labels| && i < |SetLabels(mask, labels, n)|
    ensures SetLabels(mask, labels, n)[i] in labels
    decreases n
  {
    if i < |SetLabels(mask, labels, n - 1)| { SetLabelsFrom(mask, labels, n - 1, i); }
  }

  /** The error text of a mask with an error bit set reads back as its labels, in bit order. */
  lemma ErrorsTextReadsBack(mask: uint16)
    requires SetLabels(mask, Errors, |Errors|) != []
    ensures Split(ErrorsText(mask)) == SetLabels(mask, Errors, |Errors|)
  {
    var parts := SetLabels(mask, Errors, |Errors|);
    forall i | 0 <= i < |parts| ensures NoSeparator(parts[i]) {
      SetLabelsFrom(mask, Errors, |Errors|, i);
      var j :| 0 <= j < |Errors| && Errors[j] == parts[i];
      ErrorLabelHasNoSeparator(j);
    }
    SplitJoin(parts);
  }

  /** The mode text of a mask with a mode bit set reads back as its labels, in bit order. */
  lemma ModesTextReadsBack(mask: uint16)
    requires SetLabels(mask, OperationModes, |OperationModes|) != []
    ensures Split(ModesText(mask)) == SetLabels(mask, OperationModes, |OperationModes|)
  {
    var parts := SetLabels(mask, OperationModes, |OperationModes|);
    forall i | 0 <= i < |parts| ensures NoSeparator(parts[i]) {
      SetLabelsFrom(mask, OperationModes, |OperationModes|, i);
      var j :| 0 <= j < |OperationModes| && OperationModes[j] == parts[i];
      ModeLabelHasNoSeparator(j);
    }
    SplitJoin(parts);
  }

  // ---------------------------------------------------------------------------
  // Battery type
  // ---------------------------------------------------------------------------

  const UnknownBatteryType := "Unknown"

  /** The battery-type text: the table entry for raw values below 3, otherwise "Unknown". */
  function BatteryType(raw: byte): (s: string)
    ensures raw < |BatteryTypes| ==> s == BatteryTypes[raw]
    ensures s == UnknownBatteryType <==> raw >= |BatteryTypes|
  {
    if raw < |BatteryTypes| then BatteryTypes[raw] else UnknownBatteryType
  }
}
