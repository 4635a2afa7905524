/** The skip/force decision of `process_configuration`
    (python/src/segintbench/main/generate.py). The progress bar is the
    object whose state the function changes: the messages written above it
    and its completion counter. Whether the target file exists is the
    parameter `isFile`; the generator `func(*params)` is represented by the
    segments it returns, and the file written by its lines. */
module Generate {
  import opened Wrappers
  import opened Bits
  import opened Geometry
  import opened SegUtils

  /** The part of a `tqdm` bar that `process_configuration` touches. */
  class ProgressBar {
    var messages: seq<string>
    var n: nat
    const total: nat

    /** `tqdm(total=...)`: the number of configurations to go through. */
    constructor (total: nat)
      ensures this.total == total && messages == [] && n == 0
    {
      this.total := total;
      messages := [];
      n := 0;
    }

    /** `pb.write(message)`. */
    method Write(message: string)
      modifies this
      ensures messages == old(messages) + [message] && n == old(n)
    {
      messages := messages + [message];
    }

    /** `pb.update()`: one more configuration done. */
    method Update()
      modifies this
      ensures n == old(n) + 1 && messages == old(messages)
    {
      n := n + 1;
    }
  }

  /** `Path(output_dir) / category / filename`, as text. */
  function FilePath(outputDir: string, category: string, filename: string): (r: string)
    ensures |r| == |outputDir| + |category| + |filename| + 2
    ensures r[..|outputDir|] == outputDir && r[|outputDir|] == '/'
    ensures r[|outputDir| + 1..|outputDir| + 1 + |category|] == category && r[|outputDir| + 1 + |category|] == '/'
    ensures r[|r| - |filename|..] == filename
  {
    outputDir + "/" + category + "/" + filename
  }

  /** `process_configuration(func, params, filename, category, output_dir=...,
      force=..., pb=...)`. An existing file is left alone unless `force`;
      otherwise the segments are written. Either way the bar advances by
      exactly one. The result is the lines written, if any. */
  method ProcessConfiguration(pb: ProgressBar, segments: seq<Segment>, filename: string, category: string,
                              outputDir: string, force: bool, isFile: string -> bool, bits: real -> Word64)
    returns (written: Option<seq<string>>)
    modifies pb
    ensures written.Some? <==> !isFile(FilePath(outputDir, category, filename)) || force
    ensures written.Some? ==> written.value == EncodedLines(segments, bits)
    ensures pb.n == old(pb.n) + 1
    ensures written.None? ==> pb.messages == old(pb.messages) + ["skipped: " + FilePath(outputDir, category, filename)]
    ensures written.Some? ==>
      pb.messages == old(pb.messages) + ["started: " + category + "/" + filename, "done: " + category + "/" + filename]
  {
    var filepath := FilePath(outputDir, category, filename);
    if isFile(filepath) && !force {
      pb.Write("skipped: " + filepath);
      written := None;
    } else {
      pb.Write("started: " + category + "/" + filename);
      written := Some(EncodedLines(segments, bits));
      pb.Write("done: " + category + "/" + filename);
    }
    pb.Update();
  }

  /** A generated file reads back, through `read_segments_from_csv` with a
      decoder that inverts the encoding of every number written, as the
      segments the generator returned. */
  lemma GeneratedFileReadsBack(segments: seq<Segment>, bits: real -> Word64, decode: string -> Result<real, Exception>)
    requires forall k :: 0 <= k < |segments| ==> SegmentDecodesBack(segments[k], bits, decode)
    ensures var read := ReadSegmentsFromCsv(EncodedLines(segments, bits), decode);
      read.Ok? && |read.value| == |segments| && forall k :: 0 <= k < |segments| ==> read.value[k] == Built(segments[k])
  {
    EncodedLinesReadBack(segments, bits, decode);
  }
}
