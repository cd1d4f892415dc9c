/**
 * box_to_color_label: the `box_label` setting, compared case-insensitively,
 * chooses what a detection box is labelled with and where its colour comes
 * from. The label colour is str_to_color of the label, as written (blue
 * divided by 0xff00000); in track mode a box with a track id is labelled and
 * coloured by that id instead.
 */
module BoxLabel {
  import opened Palette
  import opened TrackColor

  /** One detection box, as far as labelling is concerned. */
  datatype DetectBox = DetectBox(labelName: string, score: real, trackId: string)

  /** cyrb53: a string hash whose value is below 2^53. It is not part of this model. */
  type Hash = string -> nat

  /** `score.toFixed(2)`: float formatting, not part of this model. */
  type Fixed2 = real -> string

  datatype LabelMode = ByLabel | ByScore | ByLabelScore | ByTrack

  function LowerChar(c: char): char {
    if 'A' <= c <= 'Z' then (c as int + 32) as char else c
  }

  /** `toLowerCase` on the letters that can spell a mode name. */
  function LowerAscii(s: string): string {
    seq(|s|, i requires 0 <= i < |s| => LowerChar(s[i]))
  }

  /** The switch on `box_label.toLowerCase()`; anything unrecognised means track mode. */
  function ModeOf(setting: string): LabelMode {
    var l := LowerAscii(setting);
    if l == "label" then ByLabel
    else if l == "score" then ByScore
    else if l == "label-score" then ByLabelScore
    else ByTrack
  }

  /** `substring(0, 8)`: at most the first eight characters. */
  function Prefix8(s: string): string {
    if |s| <= 8 then s else s[..8]
  }

  /** str_to_color as written: blue is divided by 0xff00000 rather than 0xff0000. */
  function StrColorAsWritten(hash: nat): ColorF {
    ColorF(Channel(hash, 1) as real / 255.0,
           (Channel(hash, 0x100) * 0x100) as real / 65280.0,
           (Channel(hash, 0x1_0000) * 0x1_0000) as real / 267386880.0,
           1.0)
  }

  /** str_to_color with the divisor matching its mask: bytes 0, 1 and 2 of the hash. */
  function StrColor(hash: nat): ColorF {
    ColorF(Channel(hash, 1) as real / 255.0,
           (Channel(hash, 0x100) * 0x100) as real / 65280.0,
           (Channel(hash, 0x1_0000) * 0x1_0000) as real / 16711680.0,
           1.0)
  }

  /** A colour whose channels all lie in [0, 1]. */
  predicate InUnitRange(c: ColorF) {
    0.0 <= c.r <= 1.0 && 0.0 <= c.g <= 1.0 && 0.0 <= c.b <= 1.0 && 0.0 <= c.a <= 1.0
  }

  /** The colour and label text of one box. */
  function BoxColorLabel(setting: string, box: DetectBox, hash: Hash, fixed2: Fixed2): (r: (ColorF, string))
    ensures r.0.a == 1.0
  {
    var labelColor := StrColorAsWritten(hash(box.labelName));
    match ModeOf(setting)
    case ByLabel => (labelColor, box.labelName)
    case ByScore => (labelColor, fixed2(box.score))
    case ByLabelScore => (labelColor, box.labelName + " " + fixed2(box.score))
    case ByTrack =>
      if |box.trackId| > 0 then (UuidColor(box.trackId), Prefix8(box.trackId))
      else (labelColor, box.labelName)
  }

  lemma LowerAsciiIdempotent(s: string)
    ensures LowerAscii(LowerAscii(s)) == LowerAscii(s)
  {
  }

  /** The mode does not depend on the case of the setting. */
  lemma ModeIgnoresCase(s: string)
    ensures ModeOf(LowerAscii(s)) == ModeOf(s)
  {
    LowerAsciiIdempotent(s);
  }

  /** Examples of the switch: any case selects a named mode; the unset default is track mode. */
  lemma ModeExamples()
    ensures ModeOf("Label") == ByLabel
    ensures ModeOf("SCORE") == ByScore
    ensures ModeOf("Label-Score") == ByLabelScore
    ensures ModeOf("track") == ByTrack
    ensures ModeOf("") == ByTrack
    ensures ModeOf("label score") == ByTrack
  {
    assert LowerAscii("Label") == "label";
    assert LowerAscii("SCORE") == "score";
    assert LowerAscii("Label-Score") == "label-score";
    assert LowerAscii("label score")[5] == ' ';
  }

  /** The corrected str_to_color is an opaque colour with its channels in [0, 1], blue reaching 1. */
  lemma StrColorInUnitRange(hash: nat)
    ensures InUnitRange(StrColor(hash)) && StrColor(hash).a == 1.0
    ensures StrColor(hash).b == Channel(hash, 0x1_0000) as real / 255.0
    ensures Channel(hash, 0x1_0000) == 255 ==> StrColor(hash).b == 1.0
  {
  }

  /** As written, blue never exceeds 1/16, so the label colours hardly use the blue channel. */
  lemma StrColorBlueCapped(hash: nat)
    ensures StrColorAsWritten(hash).b == StrColor(hash).b / 16.0
    ensures StrColorAsWritten(hash).b <= 0.0625
  {
  }

  /** A hash whose bits 16 to 23 are all set: blue is 1/16 as written, 1 as intended. */
  lemma StrColorBlueExample()
    ensures StrColorAsWritten(0xff_0000).b == 0.0625
    ensures StrColor(0xff_0000).b == 1.0
  {
    assert Channel(0xff_0000, 0x1_0000) == 255;
  }

  /** As written, str_to_color is still an opaque colour in [0, 1]; only red and green reach 1. */
  lemma StrColorAsWrittenInUnitRange(hash: nat)
    ensures InUnitRange(StrColorAsWritten(hash)) && StrColorAsWritten(hash).a == 1.0
    ensures StrColorAsWritten(hash).r == StrColor(hash).r && StrColorAsWritten(hash).g == StrColor(hash).g
  {
    StrColorInUnitRange(hash);
    StrColorBlueCapped(hash);
  }

  /** Every box gets an opaque colour with channels in [0, 1]. */
  lemma BoxColorInUnitRange(setting: string, box: DetectBox, hash: Hash, fixed2: Fixed2)
    ensures var r := BoxColorLabel(setting, box, hash, fixed2);
      InUnitRange(r.0) && r.0.a == 1.0
  {
    StrColorAsWrittenInUnitRange(hash(box.labelName));
  }

  /**
   * Outside track mode, or without a track id, the colour is str_to_color of
   * the label as written (so its blue stays below 1/16) and the text is chosen
   * by the mode.
   */
  lemma LabelColorUnlessTracked(setting: string, box: DetectBox, hash: Hash, fixed2: Fixed2)
    requires ModeOf(setting) != ByTrack || |box.trackId| == 0
    ensures var r := BoxColorLabel(setting, box, hash, fixed2);
      r.0 == StrColorAsWritten(hash(box.labelName)) && r.0.b <= 0.0625 &&
      (ModeOf(setting) == ByScore ==> r.1 == fixed2(box.score)) &&
      (ModeOf(setting) == ByLabelScore ==> r.1 == box.labelName + " " + fixed2(box.score)) &&
      (ModeOf(setting) in {ByLabel, ByTrack} ==> r.1 == box.labelName)
  {
    StrColorBlueCapped(hash(box.labelName));
  }

  /**
   * In track mode a tracked box is labelled with the first eight characters
   * of its id and coloured by the id, so two boxes of one track share a colour.
   */
  lemma TrackModeUsesId(setting: string, box: DetectBox, other: DetectBox, hash: Hash, fixed2: Fixed2)
    requires ModeOf(setting) == ByTrack && |box.trackId| > 0
    requires other.trackId == box.trackId
    ensures var r := BoxColorLabel(setting, box, hash, fixed2);
      r.1 <= box.trackId && |r.1| == (if |box.trackId| < 8 then |box.trackId| else 8) &&
      r.0 == UuidColor(box.trackId) &&
      r.0 == BoxColorLabel(setting, other, hash, fixed2).0
  {
  }
}
