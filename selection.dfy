/** The checks the per-file callback of `mainApp` applies to one directory
    entry, in the order it applies them: the extension filter, the ignore list,
    the dimension probe, the size threshold and the choice of the axis to
    resize along. */
module Selection {
  import opened Wrappers
  import opened Text
  import opened FileName

  /** The extension fragments an image file must contain. */
  const ImageExtensions: seq<string> := ["jpg", "jpeg", "png"]

  /** Stems containing any of these are never resized. */
  const IgnoreList: seq<string> := ["mindson", "consolidation", "action", "learninggoals", "ilo"]

  /** Images with a side beyond this many pixels are resized. */
  const MaxDimension: int := 2000

  /** The size the chosen side is resized to. */
  const TargetSize: nat := 1000

  /** The path handed to the probe and to the resizer: a directory joined with
      a file name (`path.resolve` / `path.join`, kept symbolic). */
  datatype Location = Location(dir: string, name: string)

  /** What the dimension probe reports. The code reads the fields `width` and
      `length`; `length` is `None` when the probe's result has no such field,
      as JavaScript then reads `undefined`. */
  datatype Measurement = Measurement(width: int, length: Option<int>)

  /** The `longestDimension` key handed to the resizer: "width" or "length". */
  datatype Axis = Width | Length

  /** What the callback does with one directory entry. */
  datatype Verdict = NotAnImage | Ignored | Unmeasurable | WithinLimit | Resize(axis: Axis)

  /** The extension test: the lower-cased extension includes "jpg", "jpeg" or "png". */
  predicate IsImageExtension(ext: string)
  {
    var e := Lower(ext);
    Contains(e, "jpg") || Contains(e, "jpeg") || Contains(e, "png")
  }

  /** The ignore test: the lower-cased stem includes some entry of the ignore list. */
  predicate IsIgnored(name: string)
  {
    exists k :: 0 <= k < |IgnoreList| && Contains(Lower(name), IgnoreList[k])
  }

  /** JavaScript's `v > bound` where `v` may be `undefined`, which compares false. */
  predicate JsGreater(v: Option<int>, bound: int)
  {
    v.Some? && v.value > bound
  }

  /** The threshold test: the width or the length is strictly beyond 2000. */
  predicate NeedsResize(m: Measurement)
  {
    m.width > MaxDimension || JsGreater(m.length, MaxDimension)
  }

  /** The side to resize along: "width" when the width is strictly larger, and
      "length" otherwise, ties and a missing `length` included. */
  function LongestDimension(m: Measurement): (a: Axis)
    ensures a == Width ==> m.length.Some? && m.width > m.length.value
    ensures m.length.Some? && a == Length ==> m.length.value >= m.width
  {
    if m.length.Some? && m.width > m.length.value then Width else Length
  }

  /** The callback for one entry of the listing of `dir`: the first check
      that fails decides, and only an entry that passes them all is resized. */
  function Classify(dir: string, filename: string, probe: Location -> Option<Measurement>): Verdict
  {
    var attr := Parse(filename);
    if !IsImageExtension(attr.ext) then NotAnImage
    else if IsIgnored(attr.name) then Ignored
    else match probe(Location(dir, filename))
      case None => Unmeasurable
      case Some(m) => if NeedsResize(m) then Resize(LongestDimension(m)) else WithinLimit
  }

  /** The extension test is substring containment on the lower-cased
      extension: it holds exactly when some image fragment occurs in it. */
  lemma ImageExtensionIff(ext: string)
    ensures IsImageExtension(ext) <==>
      exists k, i :: 0 <= k < |ImageExtensions| && OccursAt(Lower(ext), ImageExtensions[k], i)
  {
    var e := Lower(ext);
    ContainsIff(e, "jpg");
    ContainsIff(e, "jpeg");
    ContainsIff(e, "png");
    if IsImageExtension(ext) {
      if Contains(e, "jpg") {
        var i :| OccursAt(e, "jpg", i);
        assert OccursAt(e, ImageExtensions[0], i);
      } else if Contains(e, "jpeg") {
        var i :| OccursAt(e, "jpeg", i);
        assert OccursAt(e, ImageExtensions[1], i);
      } else {
        var i :| OccursAt(e, "png", i);
        assert OccursAt(e, ImageExtensions[2], i);
      }
    }
  }

  /** Any extension with an image fragment written in it, in any case and with
      anything around it, passes the extension test. */
  lemma ImageExtensionAnywhere(p: string, w: string, q: string, k: nat)
    requires k < |ImageExtensions| && Lower(w) == ImageExtensions[k]
    ensures IsImageExtension(p + w + q)
  {
    LowerConcat(p + w, q);
    LowerConcat(p, w);
    ContainsInfix(Lower(p), Lower(w), Lower(q));
  }

  /** An extension in which an image fragment occurs passes the extension test. */
  lemma FragmentMakesImageExtension(ext: string, k: nat, i: int)
    requires k < |ImageExtensions| && OccursAt(Lower(ext), ImageExtensions[k], i)
    ensures IsImageExtension(ext)
  {
    ImageExtensionIff(ext);
  }

  /** Upper- and mixed-case image extensions pass, and so does an extension
      that merely contains a fragment. */
  lemma ImageExtensionExamples()
    ensures IsImageExtension(".JPG") && IsImageExtension(".Png") && IsImageExtension(".jpeg")
    ensures IsImageExtension(".jpg_old")
  {
    assert Lower(".JPG") == ".jpg" by {
      assert LowerChar('J') == 'j' && LowerChar('P') == 'p' && LowerChar('G') == 'g';
    }
    assert ".jpg"[1..4] == "jpg";
    FragmentMakesImageExtension(".JPG", 0, 1);
    assert Lower(".Png") == ".png" by {
      assert LowerChar('P') == 'p' && LowerChar('n') == 'n' && LowerChar('g') == 'g';
    }
    assert ".png"[1..4] == "png";
    FragmentMakesImageExtension(".Png", 2, 1);
    assert Lower(".jpeg") == ".jpeg";
    assert ".jpeg"[1..5] == "jpeg";
    FragmentMakesImageExtension(".jpeg", 1, 1);
    assert Lower(".jpg_old") == ".jpg_old";
    assert ".jpg_old"[1..4] == "jpg";
    FragmentMakesImageExtension(".jpg_old", 0, 1);
  }

  /** ".gif" fails the extension test. */
  lemma GifIsNotAnImageExtension()
    ensures !IsImageExtension(".gif")
  {
    assert Lower(".gif") == ".gif";
    assert ".gif"[1..] == "gif" && "gif"[1..] == "if";
    assert "gif"[..3] != "jpg" by { assert "gif"[0] != "jpg"[0]; }
    assert "gif"[..3] != "png" by { assert "gif"[0] != "png"[0]; }
    assert ".gif"[..3] != "jpg" by { assert ".gif"[0] != "jpg"[0]; }
    assert ".gif"[..3] != "png" by { assert ".gif"[0] != "png"[0]; }
    assert ".gif"[..4] != "jpeg" by { assert ".gif"[0] != "jpeg"[0]; }
  }

  /** The ignore test holds exactly when some ignore-list entry occurs in the
      lower-cased stem. */
  lemma IgnoredIff(name: string)
    ensures IsIgnored(name) <==>
      exists k, i :: 0 <= k < |IgnoreList| && OccursAt(Lower(name), IgnoreList[k], i)
  {
    forall k | 0 <= k < |IgnoreList| {
      ContainsIff(Lower(name), IgnoreList[k]);
    }
  }

  /** A stem with an ignore-list entry written anywhere in it, in any case, is
      ignored. */
  lemma IgnoredAnywhere(p: string, w: string, q: string, k: nat)
    requires k < |IgnoreList| && Lower(w) == IgnoreList[k]
    ensures IsIgnored(p + w + q)
  {
    LowerConcat(p + w, q);
    LowerConcat(p, w);
    ContainsInfix(Lower(p), Lower(w), Lower(q));
  }

  /** The ignore test is plain substring search: "Unit1_MindsOn" is ignored,
      and so are "Pilot" and "transaction_chart", which merely contain "ilo"
      and "action". */
  lemma IgnoreListExamples()
    ensures IsIgnored("Unit1_MindsOn")
    ensures IsIgnored("Pilot")
    ensures IsIgnored("transaction_chart")
  {
    assert Lower("MindsOn") == "mindson" by {
      assert LowerChar('M') == 'm' && LowerChar('O') == 'o';
    }
    IgnoredAnywhere("Unit1_", "MindsOn", "", 0);
    assert "Unit1_" + "MindsOn" + "" == "Unit1_MindsOn";
    assert Lower("ilo") == "ilo";
    IgnoredAnywhere("P", "ilo", "t", 4);
    assert "P" + "ilo" + "t" == "Pilot";
    assert Lower("action") == "action";
    IgnoredAnywhere("trans", "action", "_chart", 2);
    assert "trans" + "action" + "_chart" == "transaction_chart";
  }

  /** A name with no dot after its first character has no extension, so it is
      never taken for an image: "png", ".png" and "README" are all skipped. */
  lemma NoExtensionNotAnImage(dir: string, filename: string, probe: Location -> Option<Measurement>)
    requires forall j :: 0 < j < |filename| ==> filename[j] != Dot
    ensures Classify(dir, filename, probe) == NotAnImage
  {
    ParseSpec(filename);
    assert Lower([]) == [];
  }

  /** Selection is strict: a measurement of at most 2000 on both sides is not
      selected, and one side beyond 2000 is enough. */
  lemma ThresholdIsStrict(w: int, l: int)
    ensures NeedsResize(Measurement(w, Some(l))) <==> w > 2000 || l > 2000
    ensures !NeedsResize(Measurement(2000, Some(2000)))
    ensures NeedsResize(Measurement(2001, Some(0))) && NeedsResize(Measurement(0, Some(2001)))
  {
  }

  /** A larger image is selected whenever a smaller one is. */
  lemma NeedsResizeMonotone(m: Measurement, m': Measurement)
    requires m.width <= m'.width
    requires m.length.Some? ==> m'.length.Some? && m.length.value <= m'.length.value
    requires NeedsResize(m)
    ensures NeedsResize(m')
  {
  }

  /** When the probe's result has no `length` field, only the width decides
      selection and the axis is always "length": a tall, narrow image is kept
      as it is. */
  lemma MissingLengthOnlyWidthCounts(w: int)
    ensures NeedsResize(Measurement(w, None)) <==> w > 2000
    ensures LongestDimension(Measurement(w, None)) == Length
  {
  }

  /** The axis is "width" exactly when the width is strictly larger; ties go to
      "length". */
  lemma AxisChoice(w: int, l: int)
    ensures LongestDimension(Measurement(w, Some(l))) == Width <==> w > l
    ensures LongestDimension(Measurement(l, Some(l))) == Length
  {
  }

  /** An entry is resized exactly when it passes the extension test, misses the
      ignore list, is measured, and exceeds the threshold; the axis is then the
      one `LongestDimension` picks. */
  lemma ClassifyResizeIff(dir: string, filename: string, probe: Location -> Option<Measurement>)
    ensures Classify(dir, filename, probe).Resize? <==>
      IsImageExtension(Parse(filename).ext) && !IsIgnored(Parse(filename).name) &&
      probe(Location(dir, filename)).Some? && NeedsResize(probe(Location(dir, filename)).value)
    ensures Classify(dir, filename, probe).Resize? ==>
      Classify(dir, filename, probe).axis == LongestDimension(probe(Location(dir, filename)).value)
  {
  }

  /** An entry the probe cannot measure is never resized. */
  lemma UnmeasurableNeverResized(dir: string, filename: string, probe: Location -> Option<Measurement>)
    requires probe(Location(dir, filename)).None?
    ensures Classify(dir, filename, probe) in {NotAnImage, Ignored, Unmeasurable}
  {
  }
}
