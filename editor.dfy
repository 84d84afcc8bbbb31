/*
 * The edit session of editor.py: the current image with its undo and redo
 * stacks, the handler that installs a filter's result, and the dispatch of
 * file names to the format codecs by extension.
 */
module Editor {
  import opened Core
  import opened Errors
  import opened ImageContainer

  /** How many images the undo stack keeps. */
  const MaximumUndoLimit: nat := 10

  // ------------------------------------------------------ session values

  /** The abstract state of a frame: the current image (null before any) and both stacks, oldest first. */
  datatype Session = Session(image: Image?, undo: seq<Image?>, redo: seq<Image?>)

  /** The stacks together never hold more than the undo limit. */
  predicate Bounded(s: Session)
  {
    |s.undo| + |s.redo| <= MaximumUndoLimit
  }

  /** `undo`: with a non-empty undo stack the current image moves onto redo and the top of undo becomes current. */
  function UndoStep(s: Session): (t: Session)
    ensures |s.undo| == 0 ==> t == s
    ensures |s.undo| > 0 ==> t.image == s.undo[|s.undo| - 1] && t.undo == s.undo[..|s.undo| - 1]
    ensures |s.undo| > 0 ==> t.redo == s.redo + [s.image]
  {
    if |s.undo| == 0 then s
    else Session(s.undo[|s.undo| - 1], s.undo[..|s.undo| - 1], s.redo + [s.image])
  }

  /** `redo`: with a non-empty redo stack the current image moves onto undo, untrimmed, and the top of redo becomes current. */
  function RedoStep(s: Session): (t: Session)
    ensures |s.redo| == 0 ==> t == s
    ensures |s.redo| > 0 ==> t.image == s.redo[|s.redo| - 1] && t.redo == s.redo[..|s.redo| - 1]
    ensures |s.redo| > 0 ==> t.undo == s.undo + [s.image]
  {
    if |s.redo| == 0 then s
    else Session(s.redo[|s.redo| - 1], s.undo + [s.image], s.redo[..|s.redo| - 1])
  }

  /** The undo stack after dropping its oldest entries until at most the limit remain. */
  function Trim(u: seq<Image?>): (r: seq<Image?>)
    ensures |r| == Min(|u|, MaximumUndoLimit)
    ensures r == u[|u| - |r|..]
  {
    if |u| > MaximumUndoLimit then u[|u| - MaximumUndoLimit..] else u
  }

  /** The stacks after a filter result is accepted: redo emptied, the current image pushed, the oldest dropped. */
  function FilterStacks(s: Session): (t: Session)
    ensures t.image == s.image && t.redo == []
    ensures t.undo == Trim(s.undo + [s.image])
  {
    Session(s.image, Trim(s.undo + [s.image]), [])
  }

  // ---------------------------------------------------- session properties

  /** `undo` keeps the number of stacked images, so it keeps the bound. */
  lemma UndoKeepsBound(s: Session)
    ensures |UndoStep(s).undo| + |UndoStep(s).redo| == |s.undo| + |s.redo|
    ensures Bounded(s) ==> Bounded(UndoStep(s))
  {
  }

  /** `redo` keeps the number of stacked images; its push onto undo needs no trimming. */
  lemma RedoKeepsBound(s: Session)
    ensures |RedoStep(s).undo| + |RedoStep(s).redo| == |s.undo| + |s.redo|
    ensures Bounded(s) ==> Bounded(RedoStep(s))
  {
  }

  /** Accepting a filter result leaves a bounded session whatever the stacks held before. */
  lemma FilterBounded(s: Session, installed: Image?)
    ensures Bounded(FilterStacks(s))
    ensures Bounded(FilterStacks(s).(image := installed))
  {
  }

  /** `undo` then `redo` gives back the image and both stacks. */
  lemma {:induction false} UndoThenRedo(s: Session)
    requires |s.undo| > 0
    ensures RedoStep(UndoStep(s)) == s
  {
    var u := s.undo;
    assert u[..|u| - 1] + [u[|u| - 1]] == u;
    assert (s.redo + [s.image])[..|s.redo|] == s.redo;
  }

  /** `redo` then `undo` gives back the image and both stacks. */
  lemma {:induction false} RedoThenUndo(s: Session)
    requires |s.redo| > 0
    ensures UndoStep(RedoStep(s)) == s
  {
    var r := s.redo;
    assert r[..|r| - 1] + [r[|r| - 1]] == r;
    assert (s.undo + [s.image])[..|s.undo|] == s.undo;
  }

  /** Undoing right after a filter brings back the image the filter replaced, with the result on redo. */
  lemma UndoRevertsFilter(s: Session, installed: Image?)
    ensures UndoStep(FilterStacks(s).(image := installed)).image == s.image
    ensures UndoStep(FilterStacks(s).(image := installed)).redo == [installed]
  {
    var u := Trim(s.undo + [s.image]);
    assert u[|u| - 1] == (s.undo + [s.image])[|s.undo|];
  }

  /** One pass of the trimming loop: dropping the oldest entry of an over-long stack does not change its trimmed form. */
  lemma TrimDrop(u: seq<Image?>)
    requires |u| > MaximumUndoLimit
    ensures Trim(u[1..]) == Trim(u)
  {
    assert u[1..][|u| - 1 - MaximumUndoLimit..] == u[|u| - MaximumUndoLimit..];
  }

  // ---------------------------------------------------- extension parsing

  /** The position of the first c in s, as `str.index` finds it. */
  function IndexOf(s: string, c: char): (r: Option<nat>)
    ensures r.None? <==> c !in s
    ensures r.Some? ==> r.value < |s| && s[r.value] == c && c !in s[..r.value]
  {
    if |s| == 0 then None
    else if s[0] == c then Some(0)
    else
      match IndexOf(s[1..], c)
      case None => None
      case Some(i) =>
        assert s[..i + 1] == [s[0]] + s[1..][..i];
        Some(i + 1)
  }

  /** `str.lower` on the ASCII letters. */
  function Lower(s: string): (r: string)
    ensures |r| == |s|
    ensures forall i :: 0 <= i < |s| ==> r[i] == LowerChar(s[i])
  {
    if |s| == 0 then [] else [LowerChar(s[0])] + Lower(s[1..])
  }

  function LowerChar(c: char): (r: char)
    ensures 'A' <= c <= 'Z' ==> r as int == c as int + 32
    ensures !('A' <= c <= 'Z') ==> r == c
  {
    if 'A' <= c <= 'Z' then (c as int + 32) as char else c
  }

  /** Lower-casing twice is lower-casing once. */
  lemma LowerIdempotent(s: string)
    ensures Lower(Lower(s)) == Lower(s)
  {
  }

  /**
   * The file extension: everything after the first '.', lower-cased. A name
   * without a '.' makes `str.index` raise ValueError.
   */
  function Extension(filename: string): (r: Result<string>)
    ensures r.Err? <==> '.' !in filename
    ensures r.Err? ==> r.error == ValueError
  {
    match IndexOf(filename, '.')
    case None => Err(ValueError)
    case Some(i) => Ok(Lower(filename[i + 1..]))
  }

  /** A stem without '.' followed by '.' and a suffix has the lower-cased suffix as extension, dots in it included. */
  lemma {:induction false} ExtensionOfName(stem: string, suffix: string)
    requires '.' !in stem
    ensures Extension(stem + "." + suffix) == Ok(Lower(suffix))
  {
    var name := stem + "." + suffix;
    assert name[..|stem|] == stem;
    assert name[|stem|] == '.';
    assert name[|stem| + 1..] == suffix;
  }

  // -------------------------------------------------------- codec dispatch

  /** What a registered format module offers: a `read` and a `write` function, or not. */
  datatype Codec = Codec(canRead: bool, canWrite: bool)

  /** Format modules by lower-cased extension. */
  type Registry = map<string, Codec>

  /** A tuple length that cannot be unpacked into three names. */
  type OtherLength = n: nat | n != 3

  /**
   * What a plugin or a codec hands back: None or False; a tuple whose length
   * is count, meant for lengths other than three; or the triple
   * (width, height, data).
   */
  datatype Returned =
    | Nothing
    | Items(count: OtherLength)
    | Triple(width: int, height: int, data: seq<Byte>)

  /** A codec's `read` either raises or returns. */
  datatype ReadOutcome = Raised(error: Error) | Gave(value: Returned)

  /** The three arguments the new Image is made from. */
  datatype ImageArgs = ImageArgs(width: int, height: int, data: seq<Byte>)

  /** The name has an extension and a registered module with a `read` for it. */
  predicate Readable(filename: string, registry: Registry)
  {
    Extension(filename).Ok? && Extension(filename).value in registry && registry[Extension(filename).value].canRead
  }

  /**
   * `read(filename)` up to the making of the Image. The codec's own outcome
   * is a parameter, and so is whether the file's first two bytes are a
   * registered marker. When the codec raises ImageFormatError the fallback
   * raises UnsupportedImageTypeError for a known marker and KeyError for an
   * unknown one, because its membership test is negated twice.
   */
  function ReadDispatch(filename: string, registry: Registry, outcome: ReadOutcome, markerKnown: bool): (r: Result<ImageArgs>)
    ensures Extension(filename).Err? ==> r == Err(ValueError)
    ensures Extension(filename).Ok? && !Readable(filename, registry) ==> r == Err(UnsupportedImageTypeError)
    ensures r.Ok? <==> Readable(filename, registry) && outcome.Gave? && outcome.value.Triple?
    ensures r.Ok? ==> r.value == ImageArgs(outcome.value.width, outcome.value.height, outcome.value.data)
    ensures Readable(filename, registry) && outcome == Gave(Nothing) ==> r == Err(TypeError)
    ensures Readable(filename, registry) && outcome.Gave? && outcome.value.Items? ==> r == Err(ExtensionError)
    ensures Readable(filename, registry) && outcome.Raised? && outcome.error != ImageFormatError ==> r == Err(outcome.error)
    ensures Readable(filename, registry) && outcome == Raised(ImageFormatError) ==>
      r == Err(if markerKnown then UnsupportedImageTypeError else KeyError)
  {
    match Extension(filename)
    case Err(e) => Err(e)
    case Ok(ext) =>
      if ext !in registry || !registry[ext].canRead then Err(UnsupportedImageTypeError)
      else
        match outcome
        case Raised(e) =>
          if e == ImageFormatError then
            (if markerKnown then Err(UnsupportedImageTypeError) else Err(KeyError))
          else Err(e)
        case Gave(Nothing) => Err(TypeError)
        case Gave(Items(_)) => Err(ExtensionError)
        case Gave(Triple(w, h, d)) => Ok(ImageArgs(w, h, d))
  }

  /** What `write(filename, image)` hands to the codec: the extension it chose, the sides and a copy of the bytes. */
  datatype WriteCall = WriteCall(ext: string, width: int, height: int, data: seq<Byte>)

  /** `write(filename, image)`: the extension must name a registered module with a `write`. */
  function WriteDispatch(filename: string, registry: Registry, width: int, height: int, data: seq<Byte>): (r: Result<WriteCall>)
    ensures Extension(filename).Err? ==> r == Err(ValueError)
    ensures r.Ok? <==> (Extension(filename).Ok? && Extension(filename).value in registry
                        && registry[Extension(filename).value].canWrite)
    ensures r.Ok? ==> r.value == WriteCall(Extension(filename).value, width, height, data)
    ensures r.Err? && Extension(filename).Ok? ==> r.error == UnsupportedImageTypeError
  {
    match Extension(filename)
    case Err(e) => Err(e)
    case Ok(ext) =>
      if ext !in registry || !registry[ext].canWrite then Err(UnsupportedImageTypeError)
      else Ok(WriteCall(ext, width, height, data))
  }

  /** An upper-case name reaches the same module as its lower-case form. */
  lemma {:induction false} DispatchIgnoresCase(stem: string, suffix: string, registry: Registry, outcome: ReadOutcome, markerKnown: bool)
    requires '.' !in stem
    ensures ReadDispatch(stem + "." + suffix, registry, outcome, markerKnown)
      == ReadDispatch(stem + "." + Lower(suffix), registry, outcome, markerKnown)
  {
    ExtensionOfName(stem, suffix);
    ExtensionOfName(stem, Lower(suffix));
    LowerIdempotent(suffix);
  }

  /** The dispatch gave three values an Image can be made from. */
  predicate Opens(d: Result<ImageArgs>)
  {
    d.Ok? && InitChannels(d.value.width, d.value.height, |d.value.data|).Ok?
  }

  /** `read(filename)`: the dispatch, then a new Image from the three values, which may raise in turn. */
  method ReadFile(filename: string, registry: Registry, outcome: ReadOutcome, markerKnown: bool) returns (r: Result<Image>)
    ensures ReadDispatch(filename, registry, outcome, markerKnown).Err? ==> r == Err(ReadDispatch(filename, registry, outcome, markerKnown).error)
    ensures r.Ok? <==> Opens(ReadDispatch(filename, registry, outcome, markerKnown))
    ensures ReadDispatch(filename, registry, outcome, markerKnown).Ok? && r.Err? ==>
      var a := ReadDispatch(filename, registry, outcome, markerKnown).value;
      r.error == InitChannels(a.width, a.height, |a.data|).error
    ensures r.Ok? ==> fresh(r.value) && r.value.Valid()
    ensures r.Ok? ==> var a := ReadDispatch(filename, registry, outcome, markerKnown).value;
      r.value.width == a.width && r.value.height == a.height && r.value.data == a.data
  {
    var dispatched := ReadDispatch(filename, registry, outcome, markerKnown);
    if dispatched.Err? {
      return Err(dispatched.error);
    }
    var a := dispatched.value;
    r := Image.Create(a.width, a.height, a.data);
  }

  // ----------------------------------------------------------------- frame

  /** The main window's editing state. */
  class Frame {
    var image: Image?
    var undo: seq<Image?>
    var redo: seq<Image?>

    function State(): (s: Session)
      reads this
      ensures s.image == image && s.undo == undo && s.redo == redo
    {
      Session(image, undo, redo)
    }

    /** A new frame has no image and empty stacks. */
    constructor ()
      ensures State() == Session(null, [], [])
    {
      image := null;
      undo := [];
      redo := [];
    }

    method Undo()
      modifies this
      ensures State() == UndoStep(old(State()))
      ensures Bounded(old(State())) ==> Bounded(State())
    {
      UndoKeepsBound(State());
      if |undo| > 0 {
        redo := redo + [image];
        image := undo[|undo| - 1];
        undo := undo[..|undo| - 1];
      }
    }

    method Redo()
      modifies this
      ensures State() == RedoStep(old(State()))
      ensures Bounded(old(State())) ==> Bounded(State())
    {
      RedoKeepsBound(State());
      if |redo| > 0 {
        undo := undo + [image];
        image := redo[|redo| - 1];
        redo := redo[..|redo| - 1];
      }
    }

    /**
     * The handler `_filter_handler` binds to a menu item, given what the
     * filter returned for a copy of the current image. Without an image, or
     * for a result that is not a triple, nothing changes. Otherwise the
     * stacks are updated first and the new Image is made last, so when its
     * making raises the stacks have changed and the image has not.
     */
    method ApplyFilter(returned: Returned) returns (r: Result<()>)
      modifies this
      ensures old(image) == null || !returned.Triple? ==> State() == old(State()) && r == Ok(())
      ensures old(image) != null && returned.Triple? ==> undo == FilterStacks(old(State())).undo && redo == []
      ensures old(image) != null && returned.Triple? ==>
        (r.Ok? <==> InitChannels(returned.width, returned.height, |returned.data|).Ok?)
      ensures old(image) != null && returned.Triple? && r.Err? ==>
        r.error == InitChannels(returned.width, returned.height, |returned.data|).error && image == old(image)
      ensures old(image) != null && returned.Triple? && r.Ok? ==> fresh(image) && image.Valid()
      ensures old(image) != null && returned.Triple? && r.Ok? ==>
        image.width == returned.width && image.height == returned.height && image.data == returned.data
      ensures Bounded(old(State())) ==> Bounded(State())
    {
      if image == null || !returned.Triple? {
        return Ok(());
      }
      ghost var pushed := undo + [image];
      redo := [];
      undo := undo + [image];
      while |undo| > MaximumUndoLimit
        invariant Trim(undo) == Trim(pushed)
        invariant redo == [] && image == old(image)
        decreases |undo|
      {
        TrimDrop(undo);
        undo := undo[1..];
      }
      var made := Image.Create(returned.width, returned.height, returned.data);
      if made.Err? {
        return Err(made.error);
      }
      image := made.value;
      return Ok(());
    }

    /**
     * `open_file(filename)`: an empty name stands for a cancelled dialog. A
     * read that raises leaves the session as it was; otherwise the new image
     * becomes current and both stacks are emptied.
     */
    method OpenFile(filename: string, registry: Registry, outcome: ReadOutcome, markerKnown: bool) returns (r: Result<()>)
      modifies this
      ensures |filename| == 0 ==> r == Ok(()) && State() == old(State())
      ensures r.Err? ==> State() == old(State())
      ensures Bounded(old(State())) ==> Bounded(State())
      ensures r.Ok? && |filename| > 0 ==> undo == [] && redo == [] && image != null && fresh(image) && image.Valid()
      ensures |filename| > 0 ==> (r.Ok? <==> Opens(ReadDispatch(filename, registry, outcome, markerKnown)))
      ensures r.Ok? && |filename| > 0 ==> var a := ReadDispatch(filename, registry, outcome, markerKnown).value;
        image.width == a.width && image.height == a.height && image.data == a.data
    {
      if |filename| == 0 {
        return Ok(());
      }
      var read := ReadFile(filename, registry, outcome, markerKnown);
      if read.Err? {
        return Err(read.error);
      }
      image := read.value;
      undo := [];
      redo := [];
      return Ok(());
    }
  }
}
