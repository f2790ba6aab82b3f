/** The conversion tool's command line (`build_conversion_command`) and the device
    presets read from the environment (`get_env_params`). */
module Command {
  import opened Wrappers
  import opened Text

  /** The conversion parameters: sixteen valued options and four on/off flags. */
  datatype ConversionParams = ConversionParams(
    inputProfile: string,
    outputProfile: string,
    baseFontSize: string,
    defaultFontSize: string,
    monoFontSize: string,
    embedAllFonts: bool,
    subsetEmbeddedFonts: bool,
    unsmartenPunctuation: bool,
    customSize: string,
    unit: string,
    pdfSansFamily: string,
    pdfSerifFamily: string,
    pdfMonoFamily: string,
    pdfStandardFont: string,
    pdfPageMarginLeft: string,
    pdfPageMarginRight: string,
    pdfPageMarginTop: string,
    pdfPageMarginBottom: string,
    preserveCoverAspectRatio: bool,
    changeJustification: string)

  /** `DEFAULT_PARAMS`, the reMarkable preset before the environment is consulted. */
  const DefaultParams := ConversionParams(
    "default", "generic_eink_hd", "12", "18", "16", true, true, true, "1620x2160", "devicepixel",
    "IBM Plex Sans", "IBM Plex Serif", "IBM Plex Mono", "serif", "72", "20", "20", "20", true, "justify")

  /** `BOOX_AIR_4C_DEFAULT` */
  const BooxAir4cDefault := ConversionParams(
    "default", "generic_eink_hd", "12", "16", "14", true, true, true, "1860x2480", "devicepixel",
    "IBM Plex Sans", "IBM Plex Serif", "IBM Plex Mono", "serif", "72", "20", "20", "20", true, "justify")

  // ---------------------------------------------------------------------------
  // The command line
  // ---------------------------------------------------------------------------

  const Tool := "ebook-convert"

  /** The option prefixes of the sixteen valued options, in command-line order. */
  const OptionPrefixes: seq<string> := [
    "--input-profile=", "--output-profile=", "--base-font-size=", "--pdf-default-font-size=",
    "--pdf-mono-font-size=", "--custom-size=", "--unit=", "--pdf-sans-family=",
    "--pdf-serif-family=", "--pdf-mono-family=", "--pdf-standard-font=",
    "--pdf-page-margin-left=", "--pdf-page-margin-right=", "--pdf-page-margin-top=",
    "--pdf-page-margin-bottom=", "--change-justification="]

  /** The four flags, in command-line order. */
  const Flags: seq<string> := [
    "--embed-all-fonts", "--subset-embedded-fonts", "--unsmarten-punctuation",
    "--preserve-cover-aspect-ratio"]

  /** The values of the sixteen valued options, in command-line order. */
  function OptionValues(p: ConversionParams): (vs: seq<string>)
    ensures |vs| == |OptionPrefixes|
  {
    [p.inputProfile, p.outputProfile, p.baseFontSize, p.defaultFontSize, p.monoFontSize,
     p.customSize, p.unit, p.pdfSansFamily, p.pdfSerifFamily, p.pdfMonoFamily,
     p.pdfStandardFont, p.pdfPageMarginLeft, p.pdfPageMarginRight, p.pdfPageMarginTop,
     p.pdfPageMarginBottom, p.changeJustification]
  }

  /** The four flag settings, in command-line order. */
  function FlagSettings(p: ConversionParams): (bs: seq<bool>)
    ensures |bs| == |Flags|
  {
    [p.embedAllFonts, p.subsetEmbeddedFonts, p.unsmartenPunctuation, p.preserveCoverAspectRatio]
  }

  /** The flags whose setting is on, in the order given. */
  function Selected(names: seq<string>, on: seq<bool>): (r: seq<string>)
    requires |names| == |on|
    ensures |r| <= |names|
    ensures forall x :: x in r ==> x in names
  {
    if |names| == 0 then []
    else (if on[0] then [names[0]] else []) + Selected(names[1..], on[1..])
  }

  /** `build_conversion_command(input_path, output_path, params)` */
  function BuildCommand(inputPath: string, outputPath: string, p: ConversionParams): (cmd: seq<string>)
  {
    [Tool, inputPath, outputPath, "--verbose", "--debug"]
    + seq(16, i requires 0 <= i < 16 => OptionPrefixes[i] + OptionValues(p)[i])
    + Selected(Flags, FlagSettings(p))
  }

  /** The parameters read back from a command line of this shape: the two paths, the
      sixteen values after their prefixes, and which of the four flags follow. */
  function ParseCommand(cmd: seq<string>): Option<(string, string, ConversionParams)>
  {
    if |cmd| < 21 || cmd[0] != Tool || cmd[3] != "--verbose" || cmd[4] != "--debug"
       || exists i :: 0 <= i < 16 && !StartsWith(cmd[5 + i], OptionPrefixes[i])
    then None
    else
      var v := ValuesIn(cmd);
      var tail := cmd[21..];
      Some((cmd[1], cmd[2], ConversionParams(
        v[0], v[1], v[2], v[3], v[4], Flags[0] in tail, Flags[1] in tail, Flags[2] in tail,
        v[5], v[6], v[7], v[8], v[9], v[10], v[11], v[12], v[13], v[14], Flags[3] in tail, v[15])))
  }

  /** The sixteen option arguments with their prefixes cut off (an argument without its
      prefix is taken whole). */
  function ValuesIn(cmd: seq<string>): (v: seq<string>)
    requires |cmd| >= 21
    ensures |v| == 16
  {
    seq(16, i requires 0 <= i < 16 =>
      if StartsWith(cmd[5 + i], OptionPrefixes[i]) then cmd[5 + i][|OptionPrefixes[i]|..] else cmd[5 + i])
  }

  lemma SelectedMembership(names: seq<string>, on: seq<bool>, k: nat)
    requires |names| == |on| && k < |names|
    requires forall i, j :: 0 <= i < j < |names| ==> names[i] != names[j]
    ensures names[k] in Selected(names, on) <==> on[k]
    decreases |names|
  {
    if k > 0 {
      SelectedMembership(names[1..], on[1..], k - 1);
      assert names[1..][k - 1] == names[k];
    } else {
      assert names[0] !in names[1..];
    }
  }

  /** Where each part of the command line sits. */
  lemma BuildCommandArgs(inputPath: string, outputPath: string, p: ConversionParams)
    ensures var cmd := BuildCommand(inputPath, outputPath, p);
      && |cmd| >= 21
      && cmd[0] == Tool && cmd[1] == inputPath && cmd[2] == outputPath
      && cmd[3] == "--verbose" && cmd[4] == "--debug"
      && (forall i :: 0 <= i < 16 ==> cmd[5 + i] == OptionPrefixes[i] + OptionValues(p)[i])
      && cmd[21..] == Selected(Flags, FlagSettings(p))
  {
  }

  /** The option arguments read back give the values that went in. */
  lemma ValuesInBuilt(cmd: seq<string>, vs: seq<string>)
    requires |cmd| >= 21 && |vs| == 16
    requires forall i :: 0 <= i < 16 ==> cmd[5 + i] == OptionPrefixes[i] + vs[i]
    ensures forall i :: 0 <= i < 16 ==> StartsWith(cmd[5 + i], OptionPrefixes[i])
    ensures ValuesIn(cmd) == vs
  {
    assert forall i :: 0 <= i < 16 ==> (OptionPrefixes[i] + vs[i])[..|OptionPrefixes[i]|] == OptionPrefixes[i];
    assert forall i :: 0 <= i < 16 ==> (OptionPrefixes[i] + vs[i])[|OptionPrefixes[i]|..] == vs[i];
  }

  /** The flags read back give the settings that went in. */
  lemma FlagsInBuilt(p: ConversionParams)
    ensures var tail := Selected(Flags, FlagSettings(p));
      && (Flags[0] in tail <==> p.embedAllFonts)
      && (Flags[1] in tail <==> p.subsetEmbeddedFonts)
      && (Flags[2] in tail <==> p.unsmartenPunctuation)
      && (Flags[3] in tail <==> p.preserveCoverAspectRatio)
  {
    SelectedMembership(Flags, FlagSettings(p), 0);
    SelectedMembership(Flags, FlagSettings(p), 1);
    SelectedMembership(Flags, FlagSettings(p), 2);
    SelectedMembership(Flags, FlagSettings(p), 3);
  }

  /** The command line carries the paths and every parameter faithfully: reading it back
      yields exactly what went in. */
  lemma {:induction false} ParseBuildCommand(inputPath: string, outputPath: string, p: ConversionParams)
    ensures ParseCommand(BuildCommand(inputPath, outputPath, p)) == Some((inputPath, outputPath, p))
  {
    var cmd := BuildCommand(inputPath, outputPath, p);
    BuildCommandArgs(inputPath, outputPath, p);
    ValuesInBuilt(cmd, OptionValues(p));
    FlagsInBuilt(p);
  }

  /** Twenty-one fixed arguments, then one per flag that is on, in the fixed flag order. */
  lemma BuildCommandShape(inputPath: string, outputPath: string, p: ConversionParams)
    ensures var cmd := BuildCommand(inputPath, outputPath, p);
      && 21 <= |cmd| <= 25
      && cmd[0] == Tool && cmd[1] == inputPath && cmd[2] == outputPath
      && (forall k :: 0 <= k < 4 ==> (Flags[k] in cmd[21..] <==> FlagSettings(p)[k]))
  {
    var cmd := BuildCommand(inputPath, outputPath, p);
    assert cmd[21..] == Selected(Flags, FlagSettings(p));
    forall k | 0 <= k < 4 ensures Flags[k] in cmd[21..] <==> FlagSettings(p)[k] {
      SelectedMembership(Flags, FlagSettings(p), k);
    }
  }

  // ---------------------------------------------------------------------------
  // Presets from the environment
  // ---------------------------------------------------------------------------

  /** The spellings `get_env_params` reads as true, after lower-casing. */
  const Truthy: set<string> := {"true", "1", "yes", "y"}

  /** `str(b)` for a Python boolean. */
  function BoolString(b: bool): string { if b then "True" else "False" }

  /** A flag from the environment: the variable's value, or `str(default)` when unset,
      lower-cased and looked up among the truthy spellings. */
  function EnvBool(env: map<string, string>, key: string, default: bool): bool
  {
    Lower(if key in env then env[key] else BoolString(default)) in Truthy
  }

  /** A valued option from the environment, or its default. */
  function EnvString(env: map<string, string>, key: string, default: string): string
  {
    if key in env then env[key] else default
  }

  /** `f"{prefix}_{key.upper()}"` */
  function EnvKey(prefix: string, key: string): string { prefix + "_" + Upper(key) }

  /** An unset flag keeps its default: `str(default).lower()` is truthy exactly when the
      default is true. */
  lemma EnvBoolDefault(env: map<string, string>, key: string, default: bool)
    requires key !in env
    ensures EnvBool(env, key, default) == default
  {
    if default {
      assert Lower("True") == "true";
    } else {
      assert Lower("False") == "false";
    }
  }

  /** Case does not matter to a flag: a value reads as its upper- or lower-case form does. */
  lemma EnvBoolIgnoresCase(env: map<string, string>, key: string, default: bool, v: string)
    ensures EnvBool(env[key := Upper(v)], key, default) == EnvBool(env[key := v], key, default)
    ensures EnvBool(env[key := Lower(v)], key, default) == EnvBool(env[key := v], key, default)
  {
    LowerForgetsCase(v);
  }

  /** Which spellings turn a flag on: `TRUE`, `Yes`, `Y` and `1` do; `on`, `no`, `0`,
      `False` and the empty value turn it off, whatever the default. */
  lemma EnvBoolSpellings(env: map<string, string>, key: string, default: bool)
    ensures EnvBool(env[key := "TRUE"], key, default) && EnvBool(env[key := "Yes"], key, default)
    ensures EnvBool(env[key := "Y"], key, default) && EnvBool(env[key := "1"], key, default)
    ensures !EnvBool(env[key := "on"], key, default) && !EnvBool(env[key := "no"], key, default)
    ensures !EnvBool(env[key := "0"], key, default) && !EnvBool(env[key := "False"], key, default)
    ensures !EnvBool(env[key := ""], key, default)
  {
    assert Lower("TRUE") == "true";
    assert Lower("Yes") == "yes";
    assert Lower("Y") == "y";
    assert Lower("1") == "1";
    assert Lower("on") == "on";
    assert Lower("no") == "no";
    assert Lower("0") == "0";
    assert Lower("False") == "false";
  }

  /** `get_env_params(prefix, defaults)` */
  function EnvParams(prefix: string, d: ConversionParams, env: map<string, string>): ConversionParams
  {
    ConversionParams(
      EnvString(env, EnvKey(prefix, "input_profile"), d.inputProfile),
      EnvString(env, EnvKey(prefix, "output_profile"), d.outputProfile),
      EnvString(env, EnvKey(prefix, "base_font_size"), d.baseFontSize),
      EnvString(env, EnvKey(prefix, "default_font_size"), d.defaultFontSize),
      EnvString(env, EnvKey(prefix, "mono_font_size"), d.monoFontSize),
      EnvBool(env, EnvKey(prefix, "embed_all_fonts"), d.embedAllFonts),
      EnvBool(env, EnvKey(prefix, "subset_embedded_fonts"), d.subsetEmbeddedFonts),
      EnvBool(env, EnvKey(prefix, "unsmarten_punctuation"), d.unsmartenPunctuation),
      EnvString(env, EnvKey(prefix, "custom_size"), d.customSize),
      EnvString(env, EnvKey(prefix, "unit"), d.unit),
      EnvString(env, EnvKey(prefix, "pdf_sans_family"), d.pdfSansFamily),
      EnvString(env, EnvKey(prefix, "pdf_serif_family"), d.pdfSerifFamily),
      EnvString(env, EnvKey(prefix, "pdf_mono_family"), d.pdfMonoFamily),
      EnvString(env, EnvKey(prefix, "pdf_standard_font"), d.pdfStandardFont),
      EnvString(env, EnvKey(prefix, "pdf_page_margin_left"), d.pdfPageMarginLeft),
      EnvString(env, EnvKey(prefix, "pdf_page_margin_right"), d.pdfPageMarginRight),
      EnvString(env, EnvKey(prefix, "pdf_page_margin_top"), d.pdfPageMarginTop),
      EnvString(env, EnvKey(prefix, "pdf_page_margin_bottom"), d.pdfPageMarginBottom),
      EnvBool(env, EnvKey(prefix, "preserve_cover_aspect_ratio"), d.preserveCoverAspectRatio),
      EnvString(env, EnvKey(prefix, "change_justification"), d.changeJustification))
  }

  /** With no variable set, the preset is exactly its defaults. */
  lemma {:induction false} EnvParamsUnset(prefix: string, d: ConversionParams)
    ensures EnvParams(prefix, d, map[]) == d
  {
    var e: map<string, string> := map[];
    EnvBoolDefault(e, EnvKey(prefix, "embed_all_fonts"), d.embedAllFonts);
    EnvBoolDefault(e, EnvKey(prefix, "subset_embedded_fonts"), d.subsetEmbeddedFonts);
    EnvBoolDefault(e, EnvKey(prefix, "unsmarten_punctuation"), d.unsmartenPunctuation);
    EnvBoolDefault(e, EnvKey(prefix, "preserve_cover_aspect_ratio"), d.preserveCoverAspectRatio);
  }

  /** A preset depends on its own twenty variables only: two environments that agree on
      them give the same preset. */
  lemma EnvParamsAgree(prefix: string, d: ConversionParams, e1: map<string, string>, e2: map<string, string>)
    requires forall n :: n in OptionNames ==> (EnvKey(prefix, n) in e1 <==> EnvKey(prefix, n) in e2)
    requires forall n :: n in OptionNames && EnvKey(prefix, n) in e1 ==> e1[EnvKey(prefix, n)] == e2[EnvKey(prefix, n)]
    ensures EnvParams(prefix, d, e1) == EnvParams(prefix, d, e2)
  {
  }

  /** Setting a variable that is none of the preset's own leaves the preset as it is. */
  lemma EnvIgnoresOthers(prefix: string, d: ConversionParams, env: map<string, string>, key: string, v: string)
    requires forall n :: n in OptionNames ==> EnvKey(prefix, n) != key
    ensures EnvParams(prefix, d, env[key := v]) == EnvParams(prefix, d, env)
  {
    EnvParamsAgree(prefix, d, env[key := v], env);
  }

  /** Setting an option's own variable sets that option: a valued option to the value, a
      flag to whether the value is a truthy spelling. */
  lemma EnvSetsOwnOption(prefix: string, d: ConversionParams, env: map<string, string>, v: string)
    ensures EnvParams(prefix, d, env[EnvKey(prefix, "custom_size") := v]).customSize == v
    ensures EnvParams(prefix, d, env[EnvKey(prefix, "embed_all_fonts") := v]).embedAllFonts == (Lower(v) in Truthy)
  {
  }

  /** The option names `get_env_params` reads, as written in the preset tables. */
  const OptionNames: set<string> := {
    "input_profile", "output_profile", "base_font_size", "default_font_size", "mono_font_size",
    "embed_all_fonts", "subset_embedded_fonts", "unsmarten_punctuation", "custom_size", "unit",
    "pdf_sans_family", "pdf_serif_family", "pdf_mono_family", "pdf_standard_font",
    "pdf_page_margin_left", "pdf_page_margin_right", "pdf_page_margin_top",
    "pdf_page_margin_bottom", "preserve_cover_aspect_ratio", "change_justification"}

  /** The two presets read disjoint variables: a `REMARKABLE_` variable leaves the Boox
      preset as it is, and a `BOOX_AIR_4C_` variable leaves the reMarkable preset as it is. */
  lemma PresetsIndependent(env: map<string, string>, key: string, v: string)
    ensures EnvParams("BOOX_AIR_4C", BooxAir4cDefault, env[EnvKey("REMARKABLE", key) := v])
         == EnvParams("BOOX_AIR_4C", BooxAir4cDefault, env)
    ensures EnvParams("REMARKABLE", DefaultParams, env[EnvKey("BOOX_AIR_4C", key) := v])
         == EnvParams("REMARKABLE", DefaultParams, env)
  {
    forall n ensures EnvKey("BOOX_AIR_4C", n) != EnvKey("REMARKABLE", key) {
      assert EnvKey("BOOX_AIR_4C", n)[0] == 'B' && EnvKey("REMARKABLE", key)[0] == 'R';
    }
    EnvIgnoresOthers("BOOX_AIR_4C", BooxAir4cDefault, env, EnvKey("REMARKABLE", key), v);
    forall n ensures EnvKey("REMARKABLE", n) != EnvKey("BOOX_AIR_4C", key) {
      assert EnvKey("REMARKABLE", n)[0] == 'R' && EnvKey("BOOX_AIR_4C", key)[0] == 'B';
    }
    EnvIgnoresOthers("REMARKABLE", DefaultParams, env, EnvKey("BOOX_AIR_4C", key), v);
  }
}
