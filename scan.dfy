/** The body of `mainApp` after the prompt: quote stripping of the operator's
    answer, then the pass over the directory listing that collects
    `imagesResized` and hands one resize job per selected image to the
    resizer. */
module Scan {
  import opened Wrappers
  import opened Text
  import opened Selection

  /** The fit mode the resizer asks for: scale to fit, no cropping. */
  datatype Fit = Contain

  /** The argument object `mainApp` builds for `resizeImage`. */
  datatype ImageInput = ImageInput(directoryLocation: string, filename: string, longestDimension: Axis)

  /** What `resizeImage` asks of the image library: read `source`, keep its
      metadata, fit it so that `axis` measures `size`, write `destination`. */
  datatype ResizeJob = ResizeJob(source: Location, withMetadata: bool, fit: Fit, axis: Axis, size: nat, destination: Location)

  /** `resizeImage(imgInput)`, with the output directory as a parameter since
      it depends on where the program lives. */
  function ResizeImage(resizedDir: string, input: ImageInput): ResizeJob
  {
    ResizeJob(Location(input.directoryLocation, input.filename), true, Contain,
              input.longestDimension, TargetSize, Location(resizedDir, input.filename))
  }

  /** `job` is the one dispatched for `filename` of `dir`: it reads that file,
      writes the same name into `resizedDir`, and sets the axis
      `LongestDimension` picks to 1000 pixels: "width" only when a length was
      measured and the width exceeds it, "length" otherwise. */
  predicate IsJobFor(job: ResizeJob, resizedDir: string, dir: string, filename: string,
                     probe: Location -> Option<Measurement>)
  {
    probe(Location(dir, filename)).Some? &&
    job.source == Location(dir, filename) &&
    job.destination == Location(resizedDir, filename) &&
    job.axis == LongestDimension(probe(Location(dir, filename)).value) &&
    job.size == TargetSize && job.fit == Contain && job.withMetadata
  }

  /** The entries of `files` that the callback resizes, in listing order. */
  function SelectedFiles(dir: string, files: seq<string>, probe: Location -> Option<Measurement>): seq<string>
    decreases |files|
  {
    if files == [] then []
    else (if Classify(dir, files[0], probe).Resize? then [files[0]] else [])
         + SelectedFiles(dir, files[1..], probe)
  }

  /** The directory `mainApp` scans: the operator's answer with its quotes
      removed; it holds no quote and is unchanged by a second stripping. */
  function DirectoryLocation(answer: string): (dir: string)
    ensures Quote !in dir
    ensures StripQuotes(dir) == dir
  {
    StripQuotesIdempotent(answer);
    StripQuotes(answer)
  }

  /** The `forEach` callback for one entry `filename` of `dir`: return early
      when the entry is not an image, is on the ignore list, cannot be measured
      or is small enough; otherwise yield the resize job it dispatches. */
  method HandleEntry(resizedDir: string, dir: string, filename: string,
                     probe: Location -> Option<Measurement>)
    returns (job: Option<ResizeJob>)
    ensures job.Some? <==> Classify(dir, filename, probe).Resize?
    ensures job.Some? ==> IsJobFor(job.value, resizedDir, dir, filename, probe)
  {
    var attr := FileName.Parse(filename);
    if !IsImageExtension(attr.ext) {
      return None;
    }
    if IsIgnored(attr.name) {
      return None;
    }
    var dimensions := probe(Location(dir, filename));
    if dimensions.None? {
      return None;
    }
    if NeedsResize(dimensions.value) {
      var input := ImageInput(dir, filename, LongestDimension(dimensions.value));
      return Some(ResizeImage(resizedDir, input));
    }
    return None;
  }

  /** The scan of `mainApp`: strip the quotes from the operator's answer, then
      walk the listing in order, pushing every entry the callback selects onto
      `imagesResized` and dispatching its resize job. */
  method ResizeDirectory(answer: string, resizedDir: string, files: seq<string>,
                         probe: Location -> Option<Measurement>)
    returns (directoryLocation: string, imagesResized: seq<string>, jobs: seq<ResizeJob>)
    ensures directoryLocation == DirectoryLocation(answer)
    ensures imagesResized == SelectedFiles(directoryLocation, files, probe)
    ensures |jobs| == |imagesResized|
    ensures forall k :: 0 <= k < |jobs| ==>
      IsJobFor(jobs[k], resizedDir, directoryLocation, imagesResized[k], probe)
  {
    directoryLocation := StripQuotes(answer);
    imagesResized := [];
    jobs := [];
    var i := 0;
    while i < |files|
      invariant 0 <= i <= |files|
      invariant imagesResized == SelectedFiles(directoryLocation, files[..i], probe)
      invariant |jobs| == |imagesResized|
      invariant forall k :: 0 <= k < |jobs| ==>
        IsJobFor(jobs[k], resizedDir, directoryLocation, imagesResized[k], probe)
    {
      var filename := files[i];
      SelectedFilesStep(directoryLocation, files, i, probe);
      var job := HandleEntry(resizedDir, directoryLocation, filename, probe);
      if job.Some? {
        imagesResized := imagesResized + [filename];
        jobs := jobs + [job.value];
      }
      i := i + 1;
    }
    assert files[..|files|] == files;
  }

  /** One step of the scan: the entry at `i` is collected, or not, after the
      entries before it. */
  lemma SelectedFilesStep(dir: string, files: seq<string>, i: int, probe: Location -> Option<Measurement>)
    requires 0 <= i < |files|
    ensures SelectedFiles(dir, files[..i + 1], probe)
            == SelectedFiles(dir, files[..i], probe)
               + (if Classify(dir, files[i], probe).Resize? then [files[i]] else [])
  {
    assert files[..i + 1] == files[..i] + [files[i]];
    SelectedFilesAppend(dir, files[..i], [files[i]], probe);
    assert [files[i]][1..] == [];
  }

  /** Scanning a listing in two parts gives the two results one after the other. */
  lemma {:induction false} SelectedFilesAppend(dir: string, a: seq<string>, b: seq<string>,
                                               probe: Location -> Option<Measurement>)
    ensures SelectedFiles(dir, a + b, probe) == SelectedFiles(dir, a, probe) + SelectedFiles(dir, b, probe)
    decreases |a|
  {
    if a == [] {
      assert a + b == b;
    } else {
      var ab := a + b;
      assert ab[0] == a[0];
      assert ab[1..] == a[1..] + b;
      SelectedFilesAppend(dir, a[1..], b, probe);
      var head := if Classify(dir, a[0], probe).Resize? then [a[0]] else [];
      assert SelectedFiles(dir, ab, probe) == head + SelectedFiles(dir, ab[1..], probe);
      assert SelectedFiles(dir, a, probe) == head + SelectedFiles(dir, a[1..], probe);
    }
  }

  /** `imagesResized` keeps listing order: it is a subsequence of the listing. */
  lemma {:induction false} SelectedFilesSubsequence(dir: string, files: seq<string>,
                                                    probe: Location -> Option<Measurement>)
    ensures IsSubsequence(SelectedFiles(dir, files, probe), files)
    decreases |files|
  {
    if files != [] {
      SelectedFilesSubsequence(dir, files[1..], probe);
      if !Classify(dir, files[0], probe).Resize? {
        assert SelectedFiles(dir, files, probe) == SelectedFiles(dir, files[1..], probe);
        SubsequenceOfTail(SelectedFiles(dir, files[1..], probe), files);
      }
    }
  }

  /** `imagesResized` holds exactly the listed names that pass every check. */
  lemma {:induction false} SelectedFilesMembers(dir: string, files: seq<string>,
                                                probe: Location -> Option<Measurement>, f: string)
    ensures f in SelectedFiles(dir, files, probe) <==> f in files && Classify(dir, f, probe).Resize?
    decreases |files|
  {
    if files != [] {
      SelectedFilesMembers(dir, files[1..], probe, f);
      assert files == [files[0]] + files[1..];
    }
  }

  /** An entry the callback skips (in particular one whose probe fails) adds
      nothing, wherever it stands: the scan carries on as if it were absent. */
  lemma SkippedEntryAddsNothing(dir: string, a: seq<string>, f: string, b: seq<string>,
                                probe: Location -> Option<Measurement>)
    requires !Classify(dir, f, probe).Resize?
    ensures SelectedFiles(dir, a + [f] + b, probe) == SelectedFiles(dir, a + b, probe)
  {
    SelectedFilesAppend(dir, a + [f], b, probe);
    SelectedFilesAppend(dir, a, [f], probe);
    SelectedFilesAppend(dir, a, b, probe);
    assert SelectedFiles(dir, [f], probe) == [] by {
      assert [f][1..] == [];
    }
  }

  /** An entry whose probe fails is never pushed and never dispatched. */
  lemma UnmeasurableEntrySkipped(dir: string, a: seq<string>, f: string, b: seq<string>,
                                 probe: Location -> Option<Measurement>)
    requires probe(Location(dir, f)).None?
    ensures f !in SelectedFiles(dir, [f], probe)
    ensures SelectedFiles(dir, a + [f] + b, probe) == SelectedFiles(dir, a + b, probe)
  {
    SkippedEntryAddsNothing(dir, a, f, b, probe);
    SelectedFilesMembers(dir, [f], probe, f);
  }

  /** A listing of images that are all within the limit dispatches nothing. */
  lemma {:induction false} SmallImagesNotResized(dir: string, files: seq<string>,
                                                 probe: Location -> Option<Measurement>)
    requires forall k :: 0 <= k < |files| ==>
      probe(Location(dir, files[k])).Some? && !NeedsResize(probe(Location(dir, files[k])).value)
    ensures SelectedFiles(dir, files, probe) == []
    decreases |files|
  {
    if files != [] {
      assert forall k :: 0 <= k < |files[1..]| ==> files[1..][k] == files[k + 1];
      SmallImagesNotResized(dir, files[1..], probe);
    }
  }
}
