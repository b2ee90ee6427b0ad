/** Node's `path.parse` restricted to what `fs.readdir` hands the resizer: a
    bare file name without separators, split into a stem (`name`) and an
    extension (`ext`) at its last dot. */
module FileName {

  const Dot: char := '.'

  datatype ParsedPath = ParsedPath(name: string, ext: string)

  /** Index of the last dot among the first `n` characters of `s`, or -1 when
      there is none. */
  function LastDotBelow(s: string, n: nat): (r: int)
    requires n <= |s|
    ensures -1 <= r < n
    ensures 0 <= r ==> s[r] == Dot
    ensures forall j :: r < j < n ==> s[j] != Dot
    decreases n
  {
    if n == 0 then -1
    else if s[n - 1] == Dot then n - 1
    else LastDotBelow(s, n - 1)
  }

  /** `path.parse(base)` for a bare name: the extension runs from the last dot
      to the end, unless that dot is the first character (".png" is a stem
      with no extension) or the name is "..". */
  function Parse(base: string): ParsedPath
  {
    var d := LastDotBelow(base, |base|);
    if d <= 0 || base == ".." then ParsedPath(base, [])
    else ParsedPath(base[..d], base[d..])
  }

  /** The split loses nothing: stem followed by extension is the name. A
      non-empty extension follows a non-empty stem and holds one dot, at its
      start; it is empty exactly when the name is ".." or has no dot after its
      first character. */
  lemma ParseSpec(base: string)
    ensures Parse(base).name + Parse(base).ext == base
    ensures Parse(base).ext != [] ==> Parse(base).name != [] && Parse(base).ext[0] == Dot
    ensures forall j :: 0 < j < |Parse(base).ext| ==> Parse(base).ext[j] != Dot
    ensures Parse(base).ext == [] <==> (base == ".." || forall j :: 0 < j < |base| ==> base[j] != Dot)
  {
    var d := LastDotBelow(base, |base|);
    if 0 < d && base != ".." {
      assert base[..d] + base[d..] == base;
    }
  }

  /** The split on examples: the last dot wins, and a leading dot alone does
      not start an extension. */
  lemma ParseExamples()
    ensures Parse("photo.JPG") == ParsedPath("photo", ".JPG")
    ensures Parse("slide.png.bak") == ParsedPath("slide.png", ".bak")
    ensures Parse(".png") == ParsedPath(".png", "")
    ensures Parse("..") == ParsedPath("..", "")
  {
    assert "photo.JPG"[..5] == "photo" && "photo.JPG"[5..] == ".JPG";
    var t := "slide.png.bak";
    assert t[9] == Dot && t[10] != Dot && t[11] != Dot && t[12] != Dot;
    assert LastDotBelow(t, |t|) == 9;
    assert t[..9] == "slide.png" && t[9..] == ".bak";
  }
}
