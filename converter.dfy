/** The encoder settings of the converter: the bitrate table, the ffmpeg
    argument list built from one of its entries, and the converter's
    currently selected entry. */
module Converter {
  import opened Options
  import opened Decimal

  /** Constant bitrate (CBR) or variable bitrate (VBR) encoding. */
  datatype BitrateOptionType = Constant | Variable

  datatype BitrateOption = BitrateOption(kind: BitrateOptionType, value: int, caption: string)

  /** The fifteen selectable settings: five CBR rates in kbps, then the ten
      VBR quality levels, best first. */
  const BitrateOptions: seq<BitrateOption> := [
    BitrateOption(Constant, 320, "320 kbps"),
    BitrateOption(Constant, 256, "256 kbps"),
    BitrateOption(Constant, 192, "192 kbps"),
    BitrateOption(Constant, 128, "128 kbps"),
    BitrateOption(Constant, 96, "96 kbps"),
    BitrateOption(Variable, 0, "220-260 kbps"),
    BitrateOption(Variable, 1, "190-250 kbps"),
    BitrateOption(Variable, 2, "170-210 kbps"),
    BitrateOption(Variable, 3, "150-195 kbps"),
    BitrateOption(Variable, 4, "140-185 kbps"),
    BitrateOption(Variable, 5, "120-150 kbps"),
    BitrateOption(Variable, 6, "100-130 kbps"),
    BitrateOption(Variable, 7, "80-120 kbps"),
    BitrateOption(Variable, 8, "70-105 kbps"),
    BitrateOption(Variable, 9, "45-85 kbps")
  ]

  /** No two table entries share a value, whatever their type. */
  predicate DistinctValues(options: seq<BitrateOption>) {
    forall i, j :: 0 <= i < j < |options| ==> options[i].value != options[j].value
  }

  /** The values of the entries of one type. */
  function ValuesOfKind(options: seq<BitrateOption>, kind: BitrateOptionType): set<int> {
    set i | 0 <= i < |options| && options[i].kind == kind :: options[i].value
  }

  lemma BitrateTableShape()
    ensures |BitrateOptions| == 15
    ensures forall i :: 0 <= i < 5 ==> BitrateOptions[i].kind == Constant
    ensures forall i :: 5 <= i < 15 ==> BitrateOptions[i].kind == Variable
    ensures forall i :: 5 <= i < 15 ==> BitrateOptions[i].value == i - 5
    ensures DistinctValues(BitrateOptions)
  {
    var t := BitrateOptions;
    assert forall i :: 5 <= i < 15 ==> t[i].value == i - 5;
    assert t[0].value == 320 && t[1].value == 256 && t[2].value == 192 && t[3].value == 128 && t[4].value == 96;
    assert forall i, j :: 0 <= i < 5 <= j < 15 ==> t[i].value != t[j].value;
  }

  lemma BitrateTableValues()
    ensures ValuesOfKind(BitrateOptions, Constant) == {320, 256, 192, 128, 96}
    ensures ValuesOfKind(BitrateOptions, Variable) == {0, 1, 2, 3, 4, 5, 6, 7, 8, 9}
  {
    var t := BitrateOptions;
    assert ValuesOfKind(t, Constant) == {t[0].value, t[1].value, t[2].value, t[3].value, t[4].value};
    assert ValuesOfKind(t, Variable) == {t[5].value, t[6].value, t[7].value, t[8].value, t[9].value,
                                         t[10].value, t[11].value, t[12].value, t[13].value, t[14].value};
  }

  /** What an argument list asks ffmpeg to do: read `input`, drop any video
      stream, encode audio at the given rate or quality, write `output`. */
  datatype Invocation = Invocation(input: string, output: string, kind: BitrateOptionType, value: int)

  /** Reads an argument list of the shape `BuildCmd` produces back into the
      settings it encodes; `None` for any other list. */
  function ParseCmd(cmd: seq<string>): (r: Option<Invocation>)
    ensures r.Some? ==> |cmd| == 6 && cmd[0] == "-i" && cmd[2] == "-vn"
    ensures r.Some? ==> r.value.input == cmd[1] && r.value.output == cmd[5]
  {
    if |cmd| != 6 || cmd[0] != "-i" || cmd[2] != "-vn" then None
    else if cmd[3] == "-b:a" then
      var arg := cmd[4];
      if |arg| == 0 || arg[|arg| - 1] != 'k' then None
      else match ParseInt(arg[..|arg| - 1])
        case Some(v) => Some(Invocation(cmd[1], cmd[5], Constant, v))
        case None => None
    else if cmd[3] == "-q:a" then
      match ParseInt(cmd[4])
      case Some(v) => Some(Invocation(cmd[1], cmd[5], Variable, v))
      case None => None
    else None
  }

  /** The only lists `ParseCmd` accepts are those of the built shape: it reads
      the kind from the encoder flag and the value from its canonical decimal
      argument, with the "k" suffix for a constant bitrate. */
  lemma ParseCmdOnlyBuiltShape(cmd: seq<string>)
    requires ParseCmd(cmd).Some?
    ensures var inv := ParseCmd(cmd).value;
      cmd == ["-i", inv.input, "-vn"]
             + (if inv.kind == Constant then ["-b:a", IntToString(inv.value) + "k"] else ["-q:a", IntToString(inv.value)])
             + [inv.output]
  {
    var inv := ParseCmd(cmd).value;
    if cmd[3] == "-b:a" {
      var arg := cmd[4];
      ParseIntRendering(arg[..|arg| - 1], inv.value);
      assert arg == arg[..|arg| - 1] + "k";
    } else {
      ParseIntRendering(cmd[4], inv.value);
    }
  }

  /** The ffmpeg argument list for converting `input` to `output` with the
      given setting, pushed one element at a time. */
  method BuildCmd(input: string, output: string, option: BitrateOption) returns (cmd: seq<string>)
    ensures |cmd| == 6
    ensures cmd[0] == "-i" && cmd[1] == input && cmd[2] == "-vn" && cmd[5] == output
    ensures option.kind == Constant ==> cmd[3] == "-b:a" && cmd[4] == IntToString(option.value) + "k"
    ensures option.kind == Variable ==> cmd[3] == "-q:a" && cmd[4] == IntToString(option.value)
    ensures ParseCmd(cmd) == Some(Invocation(input, output, option.kind, option.value))
  {
    cmd := [];
    cmd := cmd + ["-i"];
    cmd := cmd + [input];
    cmd := cmd + ["-vn"];

    match option.kind {
      case Constant =>
        cmd := cmd + ["-b:a"];
        cmd := cmd + [IntToString(option.value) + "k"];
      case Variable =>
        cmd := cmd + ["-q:a"];
        cmd := cmd + [IntToString(option.value)];
    }
    cmd := cmd + [output];

    IntRoundTrip(option.value);
    if option.kind == Constant {
      var arg := cmd[4];
      assert arg[..|arg| - 1] == IntToString(option.value);
    }
  }

  /** The part of the converter this model keeps: the selected setting. */
  class Converter {
    var bitrateOption: BitrateOption

    /** A new converter starts with the first table entry, 320 kbps CBR. */
    constructor ()
      ensures bitrateOption == BitrateOptions[0]
      ensures bitrateOption == BitrateOption(Constant, 320, "320 kbps")
    {
      bitrateOption := BitrateOptions[0];
    }

    method SetBitrateOption(option: BitrateOption)
      modifies this`bitrateOption
      ensures bitrateOption == option
    {
      bitrateOption := option;
    }

    /** The argument list a conversion runs for the file stored under `id`:
        the output is `id` followed by ".mp3", encoded with the selected setting. */
    method ConvertCommand(id: string) returns (cmd: seq<string>)
      ensures |cmd| == 6 && cmd[1] == id && cmd[5] == id + ".mp3"
      ensures ParseCmd(cmd) == Some(Invocation(id, id + ".mp3", bitrateOption.kind, bitrateOption.value))
    {
      cmd := BuildCmd(id, id + ".mp3", bitrateOption);
    }
  }
}
