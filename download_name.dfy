/** The name `handleDownload` gives the downloaded clip:
    `pixelated_<stem, at most 15 characters>_p<level>.<extension>`, where the
    extension is what follows the last dot of the uploaded file's name and
    the stem what precedes it, with the fallbacks `mp4` and `video`. */
module DownloadName {
  import opened JsString

  /** How many characters of the stem are kept. */
  const StemLimit: nat := 15

  /** `name.split('.').pop() || 'mp4'`: never empty and never holding a dot. */
  function Extension(name: string): (ext: string)
    ensures ext != [] && '.' !in ext
  {
    SplitPiecesFree(name, '.');
    OrElse(Last(Split(name, '.')), "mp4")
  }

  /** `name.substring(0, name.lastIndexOf('.')) || 'video'`: without a dot
      the stem is `video`; with one it is the text before the last dot, or
      `video` when that is empty. */
  function BaseName(name: string): (stem: string)
    ensures stem != []
    ensures '.' !in name ==> stem == "video"
    ensures '.' in name ==> stem == OrElse(name[..LastIndexOf(name, '.')], "video")
  {
    OrElse(SubstringTo(name, LastIndexOf(name, '.')), "video")
  }

  /** The template `_p${pixelationLevel}`: for a non-negative level the text
      after `_p` is a decimal numeral denoting the level. */
  function LevelSuffix(level: int): (suffix: string)
    ensures "_p" <= suffix && |suffix| >= 3
    ensures level >= 0 ==> IsDigits(suffix[2..]) && DecimalValue(suffix[2..]) == level
  {
    var digits := NumberToString(level);
    assert ("_p" + digits)[2..] == digits;
    if level >= 0 then DecimalRoundTrip(level); "_p" + digits else "_p" + digits
  }

  /** `pixelated_${baseName.slice(0,15)}${pixelationSuffix}.${fileExtension}`:
      the name starts with `pixelated_` and ends with a dot and the extension. */
  function DownloadFileName(name: string, level: int): (fileName: string)
    ensures "pixelated_" <= fileName
    ensures var ext := Extension(name);
      |ext| < |fileName| && fileName[|fileName| - |ext| - 1..] == "." + ext
  {
    var stem, suffix, ext := SliceTo(BaseName(name), StemLimit), LevelSuffix(level), Extension(name);
    var front := "pixelated_" + stem + suffix;
    PrefixOfAppend("pixelated_", "pixelated_", stem);
    PrefixOfAppend("pixelated_", "pixelated_" + stem, suffix);
    PrefixOfAppend("pixelated_", front, ".");
    PrefixOfAppend("pixelated_", front + ".", ext);
    AppendAssoc(front, ".", ext);
    SuffixOfAppend(front, "." + ext);
    front + "." + ext
  }

  /** A prefix of `a` is a prefix of anything `a` starts. */
  lemma PrefixOfAppend(p: string, a: string, b: string)
    requires p <= a
    ensures p <= a + b
  {
    assert (a + b)[..|a|] == a;
  }

  /** What follows `a` in `a + b` is `b`. */
  lemma SuffixOfAppend(a: string, b: string)
    ensures (a + b)[|a|..] == b
  {
  }

  /** Concatenation regroups freely. */
  lemma AppendAssoc(a: string, b: string, c: string)
    ensures a + b + c == a + (b + c)
  {
  }

  /** The extension is the text after the last dot, never empty and never
      holding a dot; without a dot it is the whole name. */
  lemma {:induction false} ExtensionAfterLastDot(name: string)
    ensures Extension(name) == OrElse(name[LastIndexOf(name, '.') + 1..], "mp4")
    ensures '.' !in name ==> Extension(name) == OrElse(name, "mp4")
    ensures Extension(name) != [] && '.' !in Extension(name)
  {
    SplitLast(name, '.');
  }

  /** With a dot in the name: the stem is (at most 15 characters of) the text
      before the last dot, `video` if that is empty; the extension is the
      text after it, `mp4` if that is empty. */
  lemma {:induction false} FileNameWithDot(name: string, level: int)
    requires '.' in name
    ensures var k := LastIndexOf(name, '.');
      DownloadFileName(name, level)
        == "pixelated_" + SliceTo(OrElse(name[..k], "video"), StemLimit)
           + "_p" + NumberToString(level) + "." + OrElse(name[k + 1..], "mp4")
  {
    var k := LastIndexOf(name, '.');
    ExtensionAfterLastDot(name);
    var stem, n, ext := SliceTo(OrElse(name[..k], "video"), StemLimit), NumberToString(level), OrElse(name[k + 1..], "mp4");
    assert SliceTo(BaseName(name), StemLimit) == stem;
    assert Extension(name) == ext;
    AppendAssoc("pixelated_" + stem, "_p", n);
    assert DownloadFileName(name, level) == "pixelated_" + stem + ("_p" + n) + "." + ext;
  }

  /** Without a dot the stem is `video` and the whole name is the extension. */
  lemma {:induction false} FileNameWithoutDot(name: string, level: int)
    requires '.' !in name
    ensures DownloadFileName(name, level)
      == "pixelated_video_p" + NumberToString(level) + "." + OrElse(name, "mp4")
  {
    ExtensionAfterLastDot(name);
    var n, ext := NumberToString(level), OrElse(name, "mp4");
    var lead := "pixelated_" + "video";
    calc {
      DownloadFileName(name, level);
    == { assert SliceTo(BaseName(name), StemLimit) == "video"; assert Extension(name) == ext; }
      lead + ("_p" + n) + "." + ext;
    == { AppendAssoc(lead, "_p", n); }
      lead + "_p" + n + "." + ext;
    == { DefaultLead(); }
      "pixelated_video_p" + n + "." + ext;
    }
  }

  /** The fixed text a name without a stem starts with. */
  lemma DefaultLead()
    ensures "pixelated_" + "video" + "_p" == "pixelated_video_p"
  {
  }


  /** The downloaded name ends in the original extension: splitting it at its
      dots and taking the last piece gives `Extension(name)` back. */
  lemma {:induction false} FileNameKeepsExtension(name: string, level: int)
    ensures "pixelated_" <= DownloadFileName(name, level)
    ensures Last(Split(DownloadFileName(name, level), '.')) == Extension(name)
  {
    var front := "pixelated_" + SliceTo(BaseName(name), StemLimit) + LevelSuffix(level);
    var ext := Extension(name);
    ExtensionAfterLastDot(name);
    assert DownloadFileName(name, level) == front + ['.'] + ext;
    SplitAppend(front, ext, '.');
    SplitFree(ext, '.');
  }

  /** When the last dot is neither first nor last, stem and extension put
      back together with a dot are the original name. */
  lemma {:induction false} StemAndExtensionReassemble(name: string)
    requires 0 < LastIndexOf(name, '.') < |name| - 1
    ensures BaseName(name) + "." + Extension(name) == name
  {
    var k := LastIndexOf(name, '.');
    ExtensionAfterLastDot(name);
    assert name == name[..k] + [name[k]] + name[k + 1..];
  }
}
