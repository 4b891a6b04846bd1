/** The upload rules (config/multer.config.ts): where an uploaded file goes, the name
    it is stored under, and the filter that lets only images through. The extension
    is taken as the platform's POSIX `path.extname` takes it. */
module Upload {
  import opened Common
  import opened Text

  /** `destination`: every file goes to the one upload directory, whatever the file. */
  function Destination(uploadPath: string, originalName: string): (dir: string)
  {
    uploadPath
  }

  lemma DestinationIsFixed(uploadPath: string, a: string, b: string)
    ensures Destination(uploadPath, a) == Destination(uploadPath, b) == uploadPath
  {
  }

  /** `filename`: the decimal upload time in milliseconds, a dash, then the name the
      file had on the client. */
  function StoredFilename(now: nat, originalName: string): (stored: string)
    ensures |stored| > |originalName|
    ensures stored[|stored| - |originalName|..] == originalName
    ensures stored[|stored| - |originalName| - 1] == '-'
  {
    Decimal(now) + "-" + originalName
  }

  /** Reads a stored name back into the upload time and the original name: the digits
      before the first dash, and everything after it. */
  function SplitStoredFilename(stored: string): (r: Option<(nat, string)>)
  {
    if |stored| == 0 || !('0' <= stored[0] <= '9') then None
    else SplitAfterDigits(stored, 1)
  }

  function SplitAfterDigits(stored: string, i: nat): Option<(nat, string)>
    requires 0 < i <= |stored| && IsDigits(stored[..i])
    decreases |stored| - i
  {
    if i == |stored| then None
    else if stored[i] == '-' then Some((ParseDecimal(stored[..i]), stored[i + 1..]))
    else if '0' <= stored[i] <= '9' then
      assert stored[..i + 1] == stored[..i] + [stored[i]];
      SplitAfterDigits(stored, i + 1)
    else None
  }

  /** The stored name gives back both the time and the original name, whatever the
      original name holds (dashes included). */
  lemma StoredFilenameRoundTrip(now: nat, originalName: string)
    ensures SplitStoredFilename(StoredFilename(now, originalName)) == Some((now, originalName))
  {
    var digits := Decimal(now);
    var stored := StoredFilename(now, originalName);
    DecimalRoundTrip(now);
    assert stored[..|digits|] == digits;
    assert stored[|digits|] == '-';
    assert stored[|digits| + 1..] == originalName;
    SplitStopsAtDash(stored, 1, |digits|);
  }

  lemma {:induction false} SplitStopsAtDash(stored: string, i: nat, n: nat)
    requires 0 < i <= n < |stored| && IsDigits(stored[..n]) && stored[n] == '-'
    ensures IsDigits(stored[..i])
    ensures SplitAfterDigits(stored, i) == Some((ParseDecimal(stored[..n]), stored[n + 1..]))
    decreases n - i
  {
    assert stored[..i] == stored[..n][..i];
    if i < n {
      assert stored[i] == stored[..n][i];
      SplitStopsAtDash(stored, i + 1, n);
    }
  }

  /** `s` without its trailing slashes. */
  function TrimTrailingSlashes(s: string): (r: string)
    ensures r <= s
    ensures r == [] || r[|r| - 1] != '/'
    ensures forall i | |r| <= i < |s| :: s[i] == '/'
  {
    if s != [] && s[|s| - 1] == '/' then TrimTrailingSlashes(s[..|s| - 1]) else s
  }

  /** The part of `s` after its last slash. */
  function LastSegment(s: string): (b: string)
    ensures |b| <= |s| && b == s[|s| - |b|..]
    ensures forall i | 0 <= i < |b| :: b[i] != '/'
    ensures |b| < |s| ==> s[|s| - |b| - 1] == '/'
  {
    if s == [] || s[|s| - 1] == '/' then []
    else
      var p := s[..|s| - 1];
      var b := LastSegment(p);
      assert p[|p| - |b|..] + [s[|s| - 1]] == s[|s| - |b| - 1..];
      assert |b| < |p| ==> p[|p| - |b| - 1] == s[|s| - |b| - 2];
      b + [s[|s| - 1]]
  }

  /** Where the last dot of `b` is, if it has one. */
  function LastDot(b: string): (i: Option<nat>)
    ensures i.None? ==> forall j | 0 <= j < |b| :: b[j] != '.'
    ensures i.Some? ==> i.value < |b| && b[i.value] == '.' && forall j | i.value < j < |b| :: b[j] != '.'
  {
    if b == [] then None
    else if b[|b| - 1] == '.' then Some(|b| - 1)
    else LastDot(b[..|b| - 1])
  }

  /** The extension of one path segment: from its last dot to its end; empty when the
      segment has no dot, starts with its only dot, or is "..". */
  function SegmentExtension(b: string): (ext: string)
    ensures ext == [] || (ext[0] == '.' && forall j | 0 < j < |ext| :: ext[j] != '.')
  {
    match LastDot(b)
    case None => ""
    case Some(i) => if i == 0 || b == ".." then "" else b[i..]
  }

  /** `path.extname`: the extension of the last segment, trailing slashes aside. */
  function Extname(path: string): (ext: string)
  {
    SegmentExtension(LastSegment(TrimTrailingSlashes(path)))
  }

  /** The extensions of the accepted image types. */
  predicate IsImageExtension(ext: string)
  {
    ext == ".png" || ext == ".jpg" || ext == ".jpeg"
  }

  const OnlyImages := "Only images are allowed"

  /** What the filter tells the upload middleware: take the file (`cb(null, true)`),
      or fail the upload with an error carrying `message`. */
  datatype FilterResult = Accept | Reject(message: string)

  /** `fileFilter`: accepts a file when its extension, lower-cased, is ".png", ".jpg"
      or ".jpeg". */
  function FileFilter(originalName: string): (r: FilterResult)
    ensures r.Reject? ==> r.message == OnlyImages
  {
    if IsImageExtension(Lower(Extname(originalName))) then Accept else Reject(OnlyImages)
  }

  /** `t` ends with a character other than a slash followed by `ext`, in any letter
      case. */
  ghost predicate EndsWithExtension(t: string, ext: string)
  {
    |ext| < |t| && Lower(t[|t| - |ext|..]) == ext && t[|t| - |ext| - 1] != '/'
  }

  /** The names an image upload may have: after trailing slashes are dropped, the name
      ends in ".png", ".jpg" or ".jpeg", in any letter case, with something other than
      a slash before the dot. */
  ghost predicate ImageName(name: string)
  {
    var t := TrimTrailingSlashes(name);
    EndsWithExtension(t, ".png") || EndsWithExtension(t, ".jpg") || EndsWithExtension(t, ".jpeg")
  }

  /** A dot followed by characters that are neither dots nor slashes. */
  predicate ExtensionShape(e: string)
  {
    |e| > 1 && e[0] == '.' && forall j | 0 < j < |e| :: e[j] != '.' && e[j] != '/'
  }

  /** The filter accepts exactly the image names. */
  lemma {:induction false} FileFilterAcceptsImageNames(name: string)
    ensures FileFilter(name) == Accept <==> ImageName(name)
  {
    if FileFilter(name) == Accept {
      AcceptedIsImageName(name);
    }
    if ImageName(name) {
      ImageNameAccepted(name);
    }
  }

  lemma AcceptedIsImageName(name: string)
    requires IsImageExtension(Lower(Extname(name)))
    ensures ImageName(name)
  {
    assert |Lower(Extname(name))| > 0;
    ExtensionEndsName(name);
  }

  lemma ImageNameAccepted(name: string)
    requires ImageName(name)
    ensures IsImageExtension(Lower(Extname(name)))
  {
    var t := TrimTrailingSlashes(name);
    ImageExtensionsShaped();
    if EndsWithExtension(t, ".png") {
      ExtensionFound(name, ".png");
    } else if EndsWithExtension(t, ".jpg") {
      ExtensionFound(name, ".jpg");
    } else {
      ExtensionFound(name, ".jpeg");
    }
  }

  lemma ImageExtensionsShaped()
    ensures ExtensionShape(".png") && ExtensionShape(".jpg") && ExtensionShape(".jpeg")
  {
  }

  /** A non-empty extension is the end of the name, after a character that is not a
      slash. */
  lemma ExtensionEndsName(name: string)
    requires Extname(name) != []
    ensures EndsWithExtension(TrimTrailingSlashes(name), Lower(Extname(name)))
  {
    var t := TrimTrailingSlashes(name);
    var b := LastSegment(t);
    NonEmptyExtension(b);
    var i := LastDot(b).value;
    assert Extname(name) == b[i..];
    SegmentSuffix(t, b, i);
    EndsWithOwnSuffix(t, b[i..]);
  }

  /** A suffix that follows a character other than a slash is an extension `t` ends
      with, once lower-cased. */
  lemma EndsWithOwnSuffix(t: string, e: string)
    requires |e| < |t| && t[|t| - |e|..] == e && t[|t| - |e| - 1] != '/'
    ensures EndsWithExtension(t, Lower(e))
  {
  }

  lemma NonEmptyExtension(b: string)
    requires SegmentExtension(b) != []
    ensures LastDot(b).Some? && 0 < LastDot(b).value
    ensures SegmentExtension(b) == b[LastDot(b).value..]
  {
  }

  lemma SegmentSuffix(t: string, b: string, i: nat)
    requires 0 < i < |b| <= |t| && b == t[|t| - |b|..]
    ensures b[i..] == t[|t| - |b[i..]|..]
    ensures t[|t| - |b[i..]| - 1] == b[i - 1]
  {
  }

  /** A name that ends in an extension of the right shape, in any letter case, has
      that extension. */
  lemma ExtensionFound(name: string, e: string)
    requires ExtensionShape(e) && EndsWithExtension(TrimTrailingSlashes(name), e)
    ensures Lower(Extname(name)) == e
  {
    var t := TrimTrailingSlashes(name);
    SuffixShape(t, e);
    ShapedSuffixIsExtension(t, |e|);
  }

  /** Lower-casing keeps the shape of an extension. */
  lemma SuffixShape(t: string, e: string)
    requires ExtensionShape(e) && EndsWithExtension(t, e)
    ensures ExtensionShape(t[|t| - |e|..])
  {
    var s := t[|t| - |e|..];
    assert Lower(s) == e;
    forall k | 0 <= k < |s| ensures (s[k] == '.' <==> k == 0) && s[k] != '/' {
      LowerKeepsPunctuation(s[k]);
    }
  }

  /** A suffix of that shape, after a non-slash, is what `path.extname` returns. */
  lemma ShapedSuffixIsExtension(t: string, m: nat)
    requires m < |t| && ExtensionShape(t[|t| - m..]) && t[|t| - m - 1] != '/'
    ensures SegmentExtension(LastSegment(t)) == t[|t| - m..]
  {
    NoSlashAtEnd(t, m);
    SegmentCovers(t, m + 1);
    var b := LastSegment(t);
    var i := |b| - m;
    assert b[i..] == t[|t| - m..];
    DotStartsExtension(b, i);
    assert |b| > 2 && i > 0;
    assert b != "..";
  }

  lemma NoSlashAtEnd(t: string, m: nat)
    requires m < |t| && ExtensionShape(t[|t| - m..]) && t[|t| - m - 1] != '/'
    ensures forall k | |t| - m - 1 <= k < |t| :: t[k] != '/'
  {
    var s := t[|t| - m..];
    forall k | |t| - m - 1 <= k < |t| ensures t[k] != '/' {
      if k >= |t| - m {
        assert s[k - (|t| - m)] == t[k];
      }
    }
  }

  lemma DotStartsExtension(b: string, i: nat)
    requires i < |b| && ExtensionShape(b[i..])
    ensures LastDot(b) == Some(i)
  {
    var s := b[i..];
    assert b[i] == s[0];
    forall j | i < j < |b| ensures b[j] != '.' {
      assert b[j] == s[j - i];
    }
  }

  /** Letter case in the name makes no difference to the filter: ".PNG" passes like
      ".png". */
  lemma {:induction false} FileFilterIgnoresCase(name: string)
    ensures FileFilter(Lower(name)) == FileFilter(name)
  {
    FileFilterAcceptsImageNames(name);
    FileFilterAcceptsImageNames(Lower(name));
    ImageNameIgnoresCase(name);
  }

  lemma ImageNameIgnoresCase(name: string)
    ensures ImageName(Lower(name)) <==> ImageName(name)
  {
    var t := TrimTrailingSlashes(name);
    TrimCommutesWithLower(name);
    assert TrimTrailingSlashes(Lower(name)) == Lower(t);
    EndingIgnoresCase(t, ".png");
    EndingIgnoresCase(t, ".jpg");
    EndingIgnoresCase(t, ".jpeg");
  }

  lemma {:induction false} TrimCommutesWithLower(s: string)
    ensures TrimTrailingSlashes(Lower(s)) == Lower(TrimTrailingSlashes(s))
  {
    if s != [] {
      LowerKeepsPunctuation(s[|s| - 1]);
      LowerSlice(s, 0, |s| - 1);
      assert Lower(s)[..|s| - 1] == Lower(s[..|s| - 1]);
      if s[|s| - 1] == '/' {
        TrimCommutesWithLower(s[..|s| - 1]);
      }
    }
  }

  lemma EndingIgnoresCase(t: string, ext: string)
    requires Lower(ext) == ext
    ensures EndsWithExtension(Lower(t), ext) <==> EndsWithExtension(t, ext)
  {
    if |ext| < |t| {
      var a := |t| - |ext|;
      LowerSlice(t, a, |t|);
      LowerTwice(t[a..]);
      LowerKeepsPunctuation(t[a - 1]);
    }
  }

  lemma LowerTwice(s: string)
    ensures Lower(Lower(s)) == Lower(s)
  {
  }

  /** Some names the filter decides, worked through. */
  lemma UpperCaseImageAccepted()
    ensures FileFilter("photo.PNG") == Accept
  {
    var t := "photo.PNG";
    assert TrimTrailingSlashes(t) == t;
    assert t[5..] == ".PNG";
    assert Lower(".PNG") == ".png";
    assert EndsWithExtension(t, ".png");
    FileFilterAcceptsImageNames(t);
  }

  lemma HiddenFileRejected()
    ensures FileFilter(".png") == Reject(OnlyImages)
  {
    var t := ".png";
    assert TrimTrailingSlashes(t) == t;
    FileFilterAcceptsImageNames(t);
  }

  lemma OtherExtensionRejected()
    ensures FileFilter("notes.png.txt") == Reject(OnlyImages)
  {
    var t := "notes.png.txt";
    assert TrimTrailingSlashes(t) == t;
    assert Lower(t[9..])[1] == 't';
    assert Lower(t[8..])[0] == 'g';
    FileFilterAcceptsImageNames(t);
  }

  /** A run of `m` non-slash characters at the end of `t` lies in its last segment. */
  lemma {:induction false} SegmentCovers(t: string, m: nat)
    requires m <= |t| && forall k | |t| - m <= k < |t| :: t[k] != '/'
    ensures |LastSegment(t)| >= m
  {
    if m > 0 {
      var u := t[..|t| - 1];
      SegmentCovers(u, m - 1);
    }
  }
}
