/** Reading an uploaded file into a channels-first waveform at the canonical
    rate, and packaging separated stems as named WAV entries of an archive.
    The decoder, the encoder's byte format, the resampler and the zip layout
    are outside the model: decoding is an input, resampling a parameter, a
    WAV payload is kept as the frames and rate it encodes, and the archive
    is its ordered list of entries. */
module AudioIO {
  import opened Wrappers
  import opened Grids

  /** The canonical sample rate every waveform is brought to. */
  const TargetRate: int := 44100

  /** Entry labels used when the caller supplies none, in stem order. */
  const DefaultLabels: seq<string> := ["vocals", "drums", "bass", "other"]

  /** Extension of every archive entry. */
  const EntryExtension: string := ".wav"

  /** What the decoder returns for a file: frames x channels, and the
      file's native rate. */
  datatype Decoded<E> = Decoded(frames: Grid<E>, rate: int)

  /** A waveform as inference consumes it: channels x frames, and its rate. */
  datatype Waveform<E> = Waveform(samples: Grid<E>, rate: int)

  /** A WAV payload, kept as the frames x channels buffer handed to the
      encoder and the rate written into it; the encoder's conversion of
      sample values is not modelled. */
  datatype WavFile<E> = WavFile(frames: Grid<E>, rate: int)

  /** One named member of the archive. */
  datatype Entry<E> = Entry(name: string, payload: WavFile<E>)

  /** Why packaging stops: the encoder rejected stem `index`, or there is no
      label for stem `index`. */
  datatype PackError = EncodeFailure(index: nat) | MissingLabel(index: nat)

  /** Loads a decoded file: puts channels first and, unless the file is
      already at the canonical rate, resamples to it. */
  function LoadAudio<E>(d: Decoded<E>, resample: (Grid<E>, int, int) -> Grid<E>): (w: Waveform<E>)
    ensures w.rate == TargetRate
    ensures d.rate == TargetRate ==>
      && w.samples.rows == d.frames.cols
      && w.samples.cols == d.frames.rows
      && forall c, t :: 0 <= c < w.samples.rows && 0 <= t < w.samples.cols ==>
           w.samples.cells[c][t] == d.frames.cells[t][c]
  {
    var wave := Transpose(d.frames);
    if d.rate != TargetRate then Waveform(resample(wave, d.rate, TargetRate), TargetRate)
    else Waveform(wave, d.rate)
  }

  /** A file already at the canonical rate comes back unchanged when its
      waveform is turned frames-first again: loading neither resamples nor
      loses or reorders samples. */
  lemma LoadAtTargetRateIsLossless<E>(d: Decoded<E>, resample: (Grid<E>, int, int) -> Grid<E>)
    requires d.rate == TargetRate
    ensures Transpose(LoadAudio(d, resample).samples) == d.frames
    ensures LoadAudio(d, resample) == Waveform(Transpose(d.frames), TargetRate)
  {
    TransposeInvolutive(d.frames);
  }

  /** The entry for stem `i`: its label plus `.wav`, holding the stem turned
      frames-first and written at `rate`. */
  function StemEntry<E>(stem: Grid<E>, rate: int, name: string): Entry<E> {
    Entry(name + EntryExtension, WavFile(Transpose(stem), rate))
  }

  /** Packaging succeeded for every stem below `n`. */
  predicate PackableUpTo<E>(stems: seq<Grid<E>>, rate: int, labels: seq<string>,
                            canEncode: (Grid<E>, int) -> bool, n: nat)
    requires n <= |stems|
  {
    forall i :: 0 <= i < n ==> canEncode(Transpose(stems[i]), rate) && i < |labels|
  }

  /** Writes the stems in order; for each one the encoder runs first, then
      its label is looked up. The first stem that fails stops packaging. */
  function Package<E>(stems: seq<Grid<E>>, rate: int, labels: seq<string>,
                      canEncode: (Grid<E>, int) -> bool): (r: Result<seq<Entry<E>>, PackError>)
    ensures r.Success? <==> PackableUpTo(stems, rate, labels, canEncode, |stems|)
    ensures r.Success? ==>
      && |r.value| == |stems|
      && forall i :: 0 <= i < |stems| ==> r.value[i] == StemEntry(stems[i], rate, labels[i])
    ensures r.Failure? ==>
      var i := r.error.index;
      && i < |stems|
      && PackableUpTo(stems, rate, labels, canEncode, i)
      && (r.error.EncodeFailure? <==> !canEncode(Transpose(stems[i]), rate))
      && (r.error.MissingLabel? ==> i == |labels|)
    decreases |stems|
  {
    if |stems| == 0 then Success([])
    else
      var i := |stems| - 1;
      match Package(stems[..i], rate, labels, canEncode)
      case Failure(e) => Failure(e)
      case Success(entries) =>
        if !canEncode(Transpose(stems[i]), rate) then Failure(EncodeFailure(i))
        else if i >= |labels| then Failure(MissingLabel(i))
        else Success(entries + [StemEntry(stems[i], rate, labels[i])])
  }

  /** The labels in force: the caller's, or the default four. */
  function LabelsOrDefault(names: Option<seq<string>>): (labels: seq<string>)
    ensures names.None? ==> labels == ["vocals", "drums", "bass", "other"]
    ensures names.Some? ==> labels == names.value
  {
    match names
    case None => DefaultLabels
    case Some(given) => given
  }

  /** `save_stems_to_zip`: the stems, written at `rate`, under the given
      labels or the default ones. */
  function SaveStemsToZip<E>(stems: seq<Grid<E>>, rate: int, names: Option<seq<string>>,
                             canEncode: (Grid<E>, int) -> bool): Result<seq<Entry<E>>, PackError>
  {
    Package(stems, rate, LabelsOrDefault(names), canEncode)
  }

  /** With the default labels, four encodable stems become `vocals.wav`,
      `drums.wav`, `bass.wav` and `other.wav`, in that order. */
  lemma DefaultArchiveNames<E>(stems: seq<Grid<E>>, rate: int, canEncode: (Grid<E>, int) -> bool)
    requires |stems| == 4
    requires forall i :: 0 <= i < 4 ==> canEncode(Transpose(stems[i]), rate)
    ensures SaveStemsToZip(stems, rate, None, canEncode).Success?
    ensures var entries := SaveStemsToZip(stems, rate, None, canEncode).value;
      && |entries| == 4
      && entries[0].name == "vocals.wav"
      && entries[1].name == "drums.wav"
      && entries[2].name == "bass.wav"
      && entries[3].name == "other.wav"
  {
    var r := SaveStemsToZip(stems, rate, None, canEncode);
    assert r.Success?;
    assert r.value[0] == StemEntry(stems[0], rate, "vocals");
    assert r.value[1] == StemEntry(stems[1], rate, "drums");
    assert r.value[2] == StemEntry(stems[2], rate, "bass");
    assert r.value[3] == StemEntry(stems[3], rate, "other");
  }

  /** More stems than labels always fails, and when every stem encodes the
      failure names the first stem without a label. */
  lemma LabelShortageFails<E>(stems: seq<Grid<E>>, rate: int, labels: seq<string>,
                              canEncode: (Grid<E>, int) -> bool)
    requires |stems| > |labels|
    ensures Package(stems, rate, labels, canEncode).Failure?
    ensures (forall i :: 0 <= i < |stems| ==> canEncode(Transpose(stems[i]), rate)) ==>
      Package(stems, rate, labels, canEncode) == Failure(MissingLabel(|labels|))
  {
    var k := |labels|;
    assert k < |stems| && !(k < |labels|);
    assert !PackableUpTo(stems, rate, labels, canEncode, |stems|) by {
      assert !(canEncode(Transpose(stems[k]), rate) && k < |labels|);
    }
  }

  /** Labels beyond the stem count are never used: dropping them changes
      nothing. */
  lemma SurplusLabelsUnused<E>(stems: seq<Grid<E>>, rate: int, labels: seq<string>,
                               canEncode: (Grid<E>, int) -> bool)
    requires |stems| <= |labels|
    ensures Package(stems, rate, labels, canEncode) == Package(stems, rate, labels[..|stems|], canEncode)
  {
    var r1 := Package(stems, rate, labels, canEncode);
    var r2 := Package(stems, rate, labels[..|stems|], canEncode);
    if r1.Success? {
      assert r2.Success?;
      assert r1.value == r2.value;
    } else {
      assert r1.error.index == r2.error.index;
    }
  }

  /** The buffer each entry hands to the encoder gives back its stem when
      turned channels-first again, and carries the rate it was packaged at:
      no frame or channel is dropped, padded or reordered. */
  lemma PackageRoundTrip<E>(stems: seq<Grid<E>>, rate: int, labels: seq<string>,
                            canEncode: (Grid<E>, int) -> bool)
    requires Package(stems, rate, labels, canEncode).Success?
    ensures var entries := Package(stems, rate, labels, canEncode).value;
      forall i :: 0 <= i < |stems| ==>
        && Transpose(entries[i].payload.frames) == stems[i]
        && entries[i].payload.rate == rate
  {
    forall i | 0 <= i < |stems| {
      TransposeInvolutive(stems[i]);
    }
  }
}
