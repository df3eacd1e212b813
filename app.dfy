/** The computations the page performs on its own: naming the download,
    listing the bitrate choices for the selected type, mapping a chosen
    list value back to its table entry, and the selection state that the
    two drop-downs update. */
module App {
  import opened Options
  import opened Decimal
  import opened Converter

  /** JavaScript's `lastIndexOf` for a one-character needle: the last index
      of `c` in `s`, or -1 when `c` does not occur. */
  function LastIndexOf(s: string, c: char): (i: int)
    ensures -1 <= i < |s|
    ensures i == -1 <==> c !in s
    ensures 0 <= i ==> s[i] == c && forall j :: i < j < |s| ==> s[j] != c
  {
    if |s| == 0 then -1
    else if s[|s| - 1] == c then |s| - 1
    else LastIndexOf(s[..|s| - 1], c)
  }

  /** Where JavaScript's `slice` puts a start or end argument `k` in a string
      of length `len`: a negative `k` counts back from the end, and the
      result is clamped to `0..len`. */
  function RelativeIndex(k: int, len: nat): (r: nat)
    ensures r <= len
    ensures 0 <= k <= len ==> r == k
    ensures -(len as int) <= k < 0 ==> r == len + k
    ensures k < -(len as int) ==> r == 0
    ensures len < k ==> r == len
  {
    if k < 0 then (if len + k < 0 then 0 else len + k)
    else if k < len then k else len
  }

  /** JavaScript's `slice`: empty when the resolved start is not before the resolved end. */
  function Slice(s: string, start: int, end: int): (r: string)
    ensures var from := RelativeIndex(start, |s|);
      from + |r| <= |s| && r == s[from..from + |r|]
    ensures 0 <= start <= end <= |s| ==> r == s[start..end]
    ensures start == 0 && -|s| <= end < 0 ==> r == s[..|s| + end]
    ensures RelativeIndex(end, |s|) <= RelativeIndex(start, |s|) ==> r == []
    ensures var from, to := RelativeIndex(start, |s|), RelativeIndex(end, |s|);
      |r| == if from < to then to - from else 0
  {
    var from, to := RelativeIndex(start, |s|), RelativeIndex(end, |s|);
    if from < to then s[from..to] else []
  }

  /** The name the converted file is saved under is the original name cut
      at its last '.'. Without a '.', the -1 from `lastIndexOf` makes the
      slice drop the last character instead. */
  function DownloadStem(name: string): (stem: string)
    ensures |stem| <= |name| && stem == name[..|stem|]
    ensures '.' in name ==>
      (|stem| < |name| && name[|stem|] == '.' && forall j :: |stem| < j < |name| ==> name[j] != '.')
    ensures '.' !in name ==> |stem| == if name == [] then 0 else |name| - 1
  {
    Slice(name, 0, LastIndexOf(name, '.'))
  }

  function DownloadName(name: string): (file: string)
    ensures |file| == |DownloadStem(name)| + 4 && file[|file| - 4..] == ".mp3"
    ensures file[..|file| - 4] == name[..|file| - 4]
  {
    DownloadStem(name) + ".mp3"
  }

  /** A name with an extension keeps everything before its last '.' and gets ".mp3". */
  lemma DownloadNameReplacesExtension(base: string, ext: string)
    requires '.' !in ext
    ensures DownloadName(base + "." + ext) == base + ".mp3"
  {
    var name := base + "." + ext;
    var stem := DownloadStem(name);
    assert name[|base|] == '.';
    assert forall j :: |base| < j < |name| ==> name[j] == ext[j - |base| - 1];
    assert stem == base;
  }

  /** A name with no '.' loses its last character. */
  lemma DownloadNameWithoutDot(name: string)
    requires '.' !in name && name != []
    ensures DownloadName(name) == name[..|name| - 1] + ".mp3"
  {
  }

  /** The table entries of one type, in table order (the `filter` of the drop-down). */
  function OptionsOfType(options: seq<BitrateOption>, kind: BitrateOptionType): (r: seq<BitrateOption>)
    ensures |r| <= |options|
    ensures forall o :: o in r <==> o in options && o.kind == kind
  {
    if options == [] then []
    else (if options[0].kind == kind then [options[0]] else []) + OptionsOfType(options[1..], kind)
  }

  lemma {:induction false} OptionsOfTypeAppend(a: seq<BitrateOption>, b: seq<BitrateOption>, kind: BitrateOptionType)
    ensures OptionsOfType(a + b, kind) == OptionsOfType(a, kind) + OptionsOfType(b, kind)
    decreases |a|
  {
    if a == [] {
      assert a + b == b;
    } else {
      assert (a + b)[0] == a[0];
      assert (a + b)[1..] == a[1..] + b;
      OptionsOfTypeAppend(a[1..], b, kind);
    }
  }

  lemma {:induction false} OptionsOfTypeAll(options: seq<BitrateOption>, kind: BitrateOptionType)
    requires forall i :: 0 <= i < |options| ==> options[i].kind == kind
    ensures OptionsOfType(options, kind) == options
    decreases |options|
  {
    if options != [] {
      OptionsOfTypeAll(options[1..], kind);
    }
  }

  lemma {:induction false} OptionsOfTypeNone(options: seq<BitrateOption>, kind: BitrateOptionType)
    requires forall i :: 0 <= i < |options| ==> options[i].kind != kind
    ensures OptionsOfType(options, kind) == []
    decreases |options|
  {
    if options != [] {
      OptionsOfTypeNone(options[1..], kind);
    }
  }

  /** A table whose first `n` entries are of one type and whose others are
      of the other type splits at `n`. */
  lemma OptionsOfTypeSplit(options: seq<BitrateOption>, n: nat)
    requires n <= |options|
    requires forall i :: 0 <= i < n ==> options[i].kind == Constant
    requires forall i :: n <= i < |options| ==> options[i].kind == Variable
    ensures OptionsOfType(options, Constant) == options[..n]
    ensures OptionsOfType(options, Variable) == options[n..]
  {
    var cbr, vbr := options[..n], options[n..];
    assert options == cbr + vbr;
    assert forall i :: 0 <= i < |cbr| ==> cbr[i].kind == Constant;
    assert forall i :: 0 <= i < |vbr| ==> vbr[i].kind == Variable by {
      forall i | 0 <= i < |vbr| ensures vbr[i].kind == Variable {
        assert vbr[i] == options[n + i];
      }
    }
    OptionsOfTypeConcat(cbr, vbr);
  }

  /** Constant entries followed by variable entries: each filter returns its own part. */
  lemma OptionsOfTypeConcat(cbr: seq<BitrateOption>, vbr: seq<BitrateOption>)
    requires forall i :: 0 <= i < |cbr| ==> cbr[i].kind == Constant
    requires forall i :: 0 <= i < |vbr| ==> vbr[i].kind == Variable
    ensures OptionsOfType(cbr + vbr, Constant) == cbr
    ensures OptionsOfType(cbr + vbr, Variable) == vbr
  {
    OptionsOfTypeAll(cbr, Constant);
    OptionsOfTypeNone(vbr, Constant);
    OptionsOfTypeNone(cbr, Variable);
    OptionsOfTypeAll(vbr, Variable);
    OptionsOfTypeAppend(cbr, vbr, Constant);
    OptionsOfTypeAppend(cbr, vbr, Variable);
  }

  /** The constant-bitrate list is the first five table entries, the
      variable-bitrate list the other ten, each in table order. */
  lemma OptionsOfTypeInTable()
    ensures OptionsOfType(BitrateOptions, Constant) == BitrateOptions[..5]
    ensures OptionsOfType(BitrateOptions, Variable) == BitrateOptions[5..]
  {
    BitrateTableShape();
    OptionsOfTypeSplit(BitrateOptions, 5);
  }

  /** One entry of a drop-down: the text shown and the value reported back. */
  datatype SelectItem = SelectItem(caption: string, value: string)

  /** The drop-down's `map`: each entry's label, and its value as a decimal string. */
  function ToItems(options: seq<BitrateOption>): (items: seq<SelectItem>)
    ensures |items| == |options|
    ensures forall k :: 0 <= k < |options| ==>
      items[k] == SelectItem(options[k].caption, IntToString(options[k].value))
  {
    if options == [] then [] else [SelectItem(options[0].caption, IntToString(options[0].value))] + ToItems(options[1..])
  }

  /** The bitrate drop-down for the selected type. */
  function BitrateItems(kind: BitrateOptionType): (items: seq<SelectItem>)
    ensures var listed := OptionsOfType(BitrateOptions, kind);
      |items| == |listed|
      && forall k :: 0 <= k < |items| ==>
           (items[k] == SelectItem(listed[k].caption, IntToString(listed[k].value))
            && listed[k] in BitrateOptions && listed[k].kind == kind)
  {
    ItemsOfType(BitrateOptions, kind);
    ToItems(OptionsOfType(BitrateOptions, kind))
  }

  lemma ItemsOfType(options: seq<BitrateOption>, kind: BitrateOptionType)
    ensures var listed := OptionsOfType(options, kind);
      var items := ToItems(listed);
      |items| == |listed|
      && forall k :: 0 <= k < |items| ==>
           (items[k] == SelectItem(listed[k].caption, IntToString(listed[k].value))
            && listed[k] in options && listed[k].kind == kind)
  {
    var listed := OptionsOfType(options, kind);
    forall k | 0 <= k < |listed| ensures listed[k] in options && listed[k].kind == kind {
      assert listed[k] in listed;
    }
  }

  /** The drop-down for constant bitrate lists the first five table entries,
      the one for variable bitrate the other ten, in table order; by the
      contract of `ToItems`, each with its label and its value in decimal. */
  lemma BitrateItemsListed()
    ensures BitrateItems(Constant) == ToItems(BitrateOptions[..5])
    ensures BitrateItems(Variable) == ToItems(BitrateOptions[5..])
  {
    OptionsOfTypeInTable();
    ItemsFromListed(Constant, BitrateOptions[..5]);
    ItemsFromListed(Variable, BitrateOptions[5..]);
  }

  lemma ItemsFromListed(kind: BitrateOptionType, listed: seq<BitrateOption>)
    requires OptionsOfType(BitrateOptions, kind) == listed
    ensures BitrateItems(kind) == ToItems(listed)
  {
  }

  /** The `find` of the change handler: the first entry whose value, in
      decimal, is the given string; `None` stands for `undefined`. */
  function FindByValueString(options: seq<BitrateOption>, s: string): (r: Option<BitrateOption>)
    ensures r.Some? ==> r.value in options && IntToString(r.value.value) == s
    ensures r.None? <==> forall o :: o in options ==> IntToString(o.value) != s
    ensures r.Some? ==> exists i :: 0 <= i < |options| && options[i] == r.value
                          && forall j :: 0 <= j < i ==> IntToString(options[j].value) != s
  {
    if options == [] then None
    else if IntToString(options[0].value) == s then Some(options[0])
    else
      var r := FindByValueString(options[1..], s);
      if r.Some? then FirstMatchBehindHead(options, s, r.value); r else r
  }

  /** A first match in the tail, behind a head that does not match, is a first match of the whole. */
  lemma FirstMatchBehindHead(options: seq<BitrateOption>, s: string, o: BitrateOption)
    requires options != [] && IntToString(options[0].value) != s
    requires exists i :: 0 <= i < |options[1..]| && options[1..][i] == o
                         && forall j :: 0 <= j < i ==> IntToString(options[1..][j].value) != s
    ensures exists i :: 0 <= i < |options| && options[i] == o
                        && forall j :: 0 <= j < i ==> IntToString(options[j].value) != s
  {
    var i :| 0 <= i < |options[1..]| && options[1..][i] == o
             && forall j :: 0 <= j < i ==> IntToString(options[1..][j].value) != s;
    forall j | 0 <= j < i + 1 ensures IntToString(options[j].value) != s {
      if j > 0 { assert options[j] == options[1..][j - 1]; }
    }
    assert options[i + 1] == o;
  }

  /** In a table without repeated values, looking an entry's value up gives that entry. */
  lemma {:induction false} FindByOwnValue(options: seq<BitrateOption>, o: BitrateOption)
    requires DistinctValues(options) && o in options
    ensures FindByValueString(options, IntToString(o.value)) == Some(o)
    decreases |options|
  {
    var s := IntToString(o.value);
    if IntToString(options[0].value) == s {
      IntToStringInjective(options[0].value, o.value);
    } else {
      assert o in options[1..];
      assert DistinctValues(options[1..]) by {
        forall i, j | 0 <= i < j < |options| - 1 ensures options[1..][i].value != options[1..][j].value {
          assert options[i + 1].value != options[j + 1].value;
        }
      }
      FindByOwnValue(options[1..], o);
    }
  }

  /** Because no two table entries share a value, looking up any listed
      value gives back exactly the entry that was listed. */
  lemma LookupFindsListedOption(options: seq<BitrateOption>, kind: BitrateOptionType, k: nat)
    requires DistinctValues(options)
    requires k < |OptionsOfType(options, kind)|
    ensures FindByValueString(options, ToItems(OptionsOfType(options, kind))[k].value)
         == Some(OptionsOfType(options, kind)[k])
  {
    var listed := OptionsOfType(options, kind)[k];
    assert listed in OptionsOfType(options, kind);
    FindByOwnValue(options, listed);
  }

  /** What the two drop-downs hold: the bitrate type and the chosen entry. */
  datatype Selection = Selection(bitrateType: BitrateOptionType, bitrateOption: BitrateOption)

  /** The page opens on the constant-bitrate list with its first entry chosen. */
  function InitialSelection(): (s: Selection)
    ensures s.bitrateType == Constant && s.bitrateOption == BitrateOptions[0]
  {
    Selection(Constant, BitrateOptions[0])
  }

  /** The initial choice is the first entry of the list that is shown. */
  lemma InitialSelectionShown()
    ensures var s := InitialSelection();
      BitrateItems(s.bitrateType)[0].value == IntToString(s.bitrateOption.value)
      && OptionsOfType(BitrateOptions, s.bitrateType)[0] == s.bitrateOption
  {
    OptionsOfTypeInTable();
  }

  /** Choosing a type changes only the type; the chosen entry stays. */
  function OnTypeChange(s: Selection, kind: BitrateOptionType): (r: Selection)
    ensures r.bitrateType == kind && r.bitrateOption == s.bitrateOption
  {
    s.(bitrateType := kind)
  }

  /** Choosing a bitrate looks the reported value up in the whole table and
      makes that entry the choice; `None` when no entry has that value, where
      the page would store `undefined`. */
  function OnBitrateChange(s: Selection, value: string): (r: Option<Selection>)
    ensures r.Some? ==> r.value.bitrateType == s.bitrateType && r.value.bitrateOption in BitrateOptions
    ensures r.Some? ==> IntToString(r.value.bitrateOption.value) == value
    ensures r.None? <==> forall o :: o in BitrateOptions ==> IntToString(o.value) != value
  {
    match FindByValueString(BitrateOptions, value)
    case Some(option) => Some(s.(bitrateOption := option))
    case None => None
  }

  /** How many entries the drop-down lists for each type. */
  lemma ListedCount(kind: BitrateOptionType)
    ensures |OptionsOfType(BitrateOptions, kind)| == if kind == Constant then 5 else 10
  {
    BitrateTableShape();
    ListedCountOf(BitrateOptions, 5, kind);
  }

  /** In a table split by type at `n`, the constant list has `n` entries and
      the variable list the rest. */
  lemma ListedCountOf(options: seq<BitrateOption>, n: nat, kind: BitrateOptionType)
    requires n <= |options|
    requires forall i :: 0 <= i < n ==> options[i].kind == Constant
    requires forall i :: n <= i < |options| ==> options[i].kind == Variable
    ensures |OptionsOfType(options, kind)| == if kind == Constant then n else |options| - n
  {
    OptionsOfTypeSplit(options, n);
  }

  /** The list shown holds five entries for constant and ten for variable
      bitrate; picking the k-th of them makes exactly that entry the choice. */
  lemma ChoosingListedEntry(s: Selection, k: nat)
    requires k < if s.bitrateType == Constant then 5 else 10
    ensures k < |BitrateItems(s.bitrateType)|
    ensures OnBitrateChange(s, BitrateItems(s.bitrateType)[k].value)
         == Some(s.(bitrateOption := OptionsOfType(BitrateOptions, s.bitrateType)[k]))
  {
    ListedCount(s.bitrateType);
    ChoosingListedAt(s, k);
  }

  lemma ChoosingListedAt(s: Selection, k: nat)
    requires k < |OptionsOfType(BitrateOptions, s.bitrateType)|
    ensures k < |BitrateItems(s.bitrateType)|
    ensures OnBitrateChange(s, BitrateItems(s.bitrateType)[k].value)
         == Some(s.(bitrateOption := OptionsOfType(BitrateOptions, s.bitrateType)[k]))
  {
    TableDistinct();
    LookupFindsListedOption(BitrateOptions, s.bitrateType, k);
  }

  lemma TableDistinct()
    ensures DistinctValues(BitrateOptions)
  {
    BitrateTableShape();
  }

  /** Switching to the variable-bitrate list from the initial state keeps the
      320 kbps constant-bitrate entry chosen, although no listed value is "320". */
  lemma TypeChangeKeepsHiddenChoice()
    ensures var s := OnTypeChange(InitialSelection(), Variable);
      s.bitrateOption.kind == Constant && s.bitrateOption.value == 320
      && forall k :: 0 <= k < |BitrateItems(Variable)| ==>
           BitrateItems(Variable)[k].value != IntToString(s.bitrateOption.value)
  {
    NoVariableItemIs320();
  }

  lemma NoVariableItemIs320()
    ensures forall k :: 0 <= k < |BitrateItems(Variable)| ==> BitrateItems(Variable)[k].value != IntToString(320)
  {
    BitrateItemsListed();
    VariableItemsOmit(320);
  }

  lemma VariableItemsOmit(v: int)
    requires v < 0 || 10 <= v
    ensures forall k :: 0 <= k < |ToItems(BitrateOptions[5..])| ==>
      ToItems(BitrateOptions[5..])[k].value != IntToString(v)
  {
    BitrateTableShape();
    ValueNotListed(BitrateOptions[5..], v);
  }

  /** A value no entry has is not among the listed value strings. */
  lemma ValueNotListed(options: seq<BitrateOption>, v: int)
    requires forall k :: 0 <= k < |options| ==> options[k].value != v
    ensures forall k :: 0 <= k < |ToItems(options)| ==> ToItems(options)[k].value != IntToString(v)
  {
    var items := ToItems(options);
    forall k | 0 <= k < |items| ensures items[k].value != IntToString(v) {
      if items[k].value == IntToString(v) {
        IntToStringInjective(options[k].value, v);
      }
    }
  }
}
