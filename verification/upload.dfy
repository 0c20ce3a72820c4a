/** Admission of an uploaded file and the names derived from its filename:
    the extension whitelist, the size cap, the suffix of the temporary copy
    and the suggested download name of the archive. */
module Upload {
  import PosixPath

  /** The size cap on an upload, 200 MiB. */
  const MaxBytes: nat := 200 * 1024 * 1024

  /** Accepted endings of the lower-cased filename, in the order they are tried. */
  const AllowedExtensions: seq<string> := [".wav", ".flac", ".ogg", ".aiff", ".aif"]

  /** Suffix of the temporary copy when the filename has no extension. */
  const DefaultSuffix: string := ".wav"

  /** Appended to the filename's root to name the archive. */
  const ArchiveSuffix: string := "_stems.zip"

  /** The outcome of the two admission checks. */
  datatype Verdict = Admit | UnsupportedFormat | PayloadTooLarge {

    /** The HTTP status a rejection is reported with. */
    function Status(): int
      requires !Admit?
    {
      if UnsupportedFormat? then 400 else 413
    }

    /** The message a rejection carries. */
    function Detail(): string
      requires !Admit?
    {
      if UnsupportedFormat? then "Upload WAV/FLAC/OGG/AIFF only." else "File too large (limit ~200MB)."
    }
  }

  /** ASCII lower-casing of one character. */
  function LowerChar(c: char): char {
    if 'A' <= c <= 'Z' then (c as int - 'A' as int + 'a' as int) as char else c
  }

  /** `str.lower`, restricted to ASCII letters. */
  function Lower(s: string): (r: string)
    ensures |r| == |s|
    ensures forall i {:trigger r[i]} :: 0 <= i < |s| ==> r[i] == LowerChar(s[i])
  {
    seq(|s|, i requires 0 <= i < |s| => LowerChar(s[i]))
  }

  /** `str.endswith` with one suffix. */
  predicate EndsWith(s: string, suffix: string) {
    |suffix| <= |s| && s[|s| - |suffix|..] == suffix
  }

  /** `str.endswith` with a tuple of suffixes: tries them in order. */
  function EndsWithAny(s: string, suffixes: seq<string>): bool
    decreases |suffixes|
  {
    if |suffixes| == 0 then false
    else EndsWith(s, suffixes[0]) || EndsWithAny(s, suffixes[1..])
  }

  /** The extension rule as a plain statement: the lower-cased filename ends
      in one of the accepted extensions. */
  ghost predicate Admissible(filename: string) {
    exists e :: e in AllowedExtensions && EndsWith(Lower(filename), e)
  }

  /** Trying the suffixes in order succeeds exactly when one of them matches. */
  lemma {:induction false} EndsWithAnyIff(s: string, suffixes: seq<string>)
    ensures EndsWithAny(s, suffixes) <==> exists e :: e in suffixes && EndsWith(s, e)
    decreases |suffixes|
  {
    if |suffixes| > 0 {
      EndsWithAnyIff(s, suffixes[1..]);
      assert forall e :: e in suffixes <==> e == suffixes[0] || e in suffixes[1..];
    }
  }

  /** The two admission checks of `separate`: the extension first, then the
      size; each rejection is distinct. */
  function Validate(filename: string, size: nat): Verdict {
    if !EndsWithAny(Lower(filename), AllowedExtensions) then UnsupportedFormat
    else if size > MaxBytes then PayloadTooLarge
    else Admit
  }

  /** The verdict in terms of the extension rule: 400 exactly for names
      outside the whitelist, whatever the size; then 413 exactly above the
      cap. */
  lemma ValidateMeaning(filename: string, size: nat)
    ensures Validate(filename, size) == UnsupportedFormat <==> !Admissible(filename)
    ensures Validate(filename, size) == PayloadTooLarge <==> Admissible(filename) && size > MaxBytes
    ensures Validate(filename, size) == Admit <==> Admissible(filename) && size <= MaxBytes
  {
    EndsWithAnyIff(Lower(filename), AllowedExtensions);
  }

  /** The suffix given to the temporary copy: the filename's extension, as
      typed, or `.wav` when it has none. */
  function TempSuffix(filename: string): string {
    var ext := PosixPath.SplitExt(filename).ext;
    if ext == "" then DefaultSuffix else ext
  }

  /** The suggested name of the returned archive: the filename without its
      extension, followed by `_stems.zip`. */
  function DownloadName(filename: string): string {
    PosixPath.SplitExt(filename).root + ArchiveSuffix
  }

  /** Lower-casing maps a dot, and only a dot, to a dot. */
  lemma LowerKeepsDots(c: char)
    ensures LowerChar(c) == PosixPath.ExtSep <==> c == PosixPath.ExtSep
  {
  }

  /** Every accepted extension is a dot followed by dot-free letters. */
  lemma AllowedExtensionsShape(e: string)
    requires e in AllowedExtensions
    ensures |e| >= 2 && e[0] == PosixPath.ExtSep
    ensures forall k :: 1 <= k < |e| ==> e[k] != PosixPath.ExtSep
  {
  }

  /** The root `splitext` returns: the whole filename when there is no
      extension, otherwise the filename minus the extension. */
  lemma RootMeaning(filename: string)
    ensures PosixPath.NoExtension(filename) ==> PosixPath.SplitExt(filename).root == filename
    ensures !PosixPath.NoExtension(filename) ==>
      var s := PosixPath.SplitExt(filename);
      && s.ext != []
      && |s.ext| <= |filename|
      && s.root == filename[..|filename| - |s.ext|]
  {
    var s := PosixPath.SplitExt(filename);
    PosixPath.SplitExtSound(filename);
    if PosixPath.NoExtension(filename) {
      PosixPath.SplitExtUnique(filename, PosixPath.Split(filename, ""));
    } else {
      assert s.root + s.ext == filename;
      assert s.root == (s.root + s.ext)[..|s.root|];
    }
  }

  /** The temporary copy keeps the filename's own extension, case and all,
      and falls back to `.wav` exactly when the last path component has no
      dot past its leading dots. */
  lemma TempSuffixMeaning(filename: string)
    ensures PosixPath.NoExtension(filename) ==> TempSuffix(filename) == DefaultSuffix
    ensures !PosixPath.NoExtension(filename) ==>
      var t := TempSuffix(filename);
      && EndsWith(filename, t)
      && t[0] == PosixPath.ExtSep
      && PosixPath.ExtSep !in t[1..]
      && PosixPath.Sep !in t
  {
    var s := PosixPath.SplitExt(filename);
    PosixPath.SplitExtSound(filename);
    RootMeaning(filename);
    if !PosixPath.NoExtension(filename) {
      assert TempSuffix(filename) == s.ext;
      assert filename == s.root + s.ext;
      assert filename[|s.root|..] == s.ext;
    }
  }

  /** Two dots of `s` that are both followed only by non-dots are the same dot. */
  lemma LastDotUnique(s: string, a: nat, b: nat)
    requires a < |s| && b < |s| && s[a] == PosixPath.ExtSep && s[b] == PosixPath.ExtSep
    requires forall k :: a < k < |s| ==> s[k] != PosixPath.ExtSep
    requires forall k :: b < k < |s| ==> s[k] != PosixPath.ExtSep
    ensures a == b
  {
  }

  /** Lower-casing commutes with taking a suffix. */
  lemma LowerSuffix(s: string, i: nat)
    requires i <= |s|
    ensures Lower(s[i..]) == Lower(s)[i..]
  {
  }

  /** A dot followed by no other dot. */
  predicate SingleDotExt(x: string) {
    |x| >= 1 && x[0] == PosixPath.ExtSep && forall k :: 1 <= k < |x| ==> x[k] != PosixPath.ExtSep
  }

  /** Past the dot that starts a single-dot ending, the lower-cased name has
      no dot. */
  lemma NoDotPastEnding(f: string, t: string)
    requires EndsWith(f, t) && SingleDotExt(t)
    ensures forall k :: |f| - |t| < k < |f| ==> Lower(f)[k] != PosixPath.ExtSep
  {
    forall k | |f| - |t| < k < |f| ensures Lower(f)[k] != PosixPath.ExtSep {
      assert f[k] == t[k - (|f| - |t|)];
      LowerKeepsDots(f[k]);
    }
  }

  /** Two single-dot endings of the same name, one matched case-insensitively,
      are the same ending up to case. */
  lemma SingleDotEndingsAgree(f: string, t: string, e: string)
    requires EndsWith(f, t) && SingleDotExt(t)
    requires EndsWith(Lower(f), e) && SingleDotExt(e)
    ensures Lower(t) == e
  {
    var lf := Lower(f);
    var a := |f| - |t|;
    var b := |f| - |e|;
    NoDotPastEnding(f, t);
    NoDotPastEnding(lf, e);
    LowerKeepsDots(f[a]);
    assert lf[b] == e[0];
    assert lf[a] == PosixPath.ExtSep;
    LastDotUnique(lf, a, b);
    LowerSuffix(f, a);
  }

  /** For an admitted filename that has an extension, the temporary copy's
      suffix is, once lower-cased, the accepted extension it matched. */
  lemma AdmittedSuffixIsAccepted(filename: string)
    requires Admissible(filename)
    requires !PosixPath.NoExtension(filename)
    ensures Lower(TempSuffix(filename)) in AllowedExtensions
  {
    TempSuffixMeaning(filename);
    var t := TempSuffix(filename);
    assert SingleDotExt(t) by {
      forall k | 1 <= k < |t| ensures t[k] != PosixPath.ExtSep {
        assert t[k] == t[1..][k - 1];
      }
    }
    var e :| e in AllowedExtensions && EndsWith(Lower(filename), e);
    AllowedExtensionsShape(e);
    SingleDotEndingsAgree(filename, t, e);
  }

  /** The download name and the temporary suffix strip the same extension:
      the name is the filename minus that extension, plus `_stems.zip`. */
  lemma DownloadNameMeaning(filename: string)
    ensures PosixPath.NoExtension(filename) ==> DownloadName(filename) == filename + ArchiveSuffix
    ensures !PosixPath.NoExtension(filename) ==>
      && EndsWith(filename, TempSuffix(filename))
      && DownloadName(filename) == filename[..|filename| - |TempSuffix(filename)|] + ArchiveSuffix
  {
    RootMeaning(filename);
    TempSuffixMeaning(filename);
  }

  /** Worked cases of the admission rule: case does not matter, the cap is
      inclusive, and the extension is judged before the size. */
  lemma ValidationExamples()
    ensures Validate(".AIF", 0) == Admit
    ensures Validate("Song.WAV", MaxBytes) == Admit
    ensures Validate("Song.WAV", MaxBytes + 1) == PayloadTooLarge
    ensures Validate("track.mp3", MaxBytes + 1) == UnsupportedFormat
    ensures Validate("notes.txt", 0) == UnsupportedFormat
  {
    UpperCaseAdmissible();
    ValidateMeaning(".AIF", 0);
    ValidateMeaning("Song.WAV", MaxBytes);
    ValidateMeaning("Song.WAV", MaxBytes + 1);
    OtherFormatsRejected();
    ValidateMeaning("track.mp3", MaxBytes + 1);
    ValidateMeaning("notes.txt", 0);
  }

  /** Upper-case extensions are accepted. */
  lemma UpperCaseAdmissible()
    ensures Admissible(".AIF")
    ensures Admissible("Song.WAV")
  {
    assert Lower(".AIF") == ".aif";
    assert EndsWith(Lower(".AIF"), ".aif");
    assert Lower("Song.WAV") == "song.wav";
    assert EndsWith(Lower("Song.WAV"), ".wav");
  }

  /** A name whose last character is not the last character of any
      accepted extension is rejected. */
  lemma RejectedByLastChar(filename: string)
    requires |filename| > 0
    requires LowerChar(filename[|filename| - 1]) !in {'v', 'c', 'g', 'f'}
    ensures !Admissible(filename)
  {
    var lf := Lower(filename);
    assert lf[|lf| - 1] == LowerChar(filename[|filename| - 1]);
  }

  /** Formats outside the whitelist are rejected. */
  lemma OtherFormatsRejected()
    ensures !Admissible("track.mp3")
    ensures !Admissible("notes.txt")
  {
    RejectedByLastChar("track.mp3");
    RejectedByLastChar("notes.txt");
  }

  /** Worked cases of the derived names: a name that is only a leading-dot
      extension gets the default suffix; the download name keeps every dot
      but the last. */
  lemma NamingExamples()
    ensures TempSuffix(".flac") == ".wav"
    ensures TempSuffix("Song.FLAC") == ".FLAC"
    ensures DownloadName("a.b.wav") == "a.b" + "_stems.zip"
  {
    HiddenFlacSuffix();
    UpperFlacSuffix();
    DottedDownloadName();
  }

  lemma HiddenFlacSuffix()
    ensures TempSuffix(".flac") == ".wav"
  {
    assert ".flac"[0] == '.';
    assert PosixPath.RFind(".flac", '.') == 0;
  }

  lemma UpperFlacSuffix()
    ensures TempSuffix("Song.FLAC") == ".FLAC"
  {
    assert "Song.FLAC"[4] == '.';
    assert PosixPath.RFind("Song.FLAC", '.') == 4;
    assert "Song.FLAC"[..4][0] == 'S';
  }

  lemma DottedDownloadName()
    ensures DownloadName("a.b.wav") == "a.b" + "_stems.zip"
  {
    DottedRoot();
    assert ArchiveSuffix == "_stems.zip";
  }

  lemma DottedRoot()
    ensures PosixPath.SplitExt("a.b.wav").root == "a.b"
  {
    assert "a.b.wav"[3] == '.';
    assert PosixPath.RFind("a.b.wav", '.') == 3;
    assert "a.b.wav"[..3][0] == 'a';
    assert "a.b.wav"[..3] == "a.b";
  }
}
