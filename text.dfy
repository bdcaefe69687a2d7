/** The string helpers the organizer relies on: str.lower, str.upper,
    str.strip and os.path.splitext. Case mapping covers ASCII letters only. */
module Text {

  predicate IsUpperAscii(c: char) { 'A' <= c <= 'Z' }

  predicate IsLowerAscii(c: char) { 'a' <= c <= 'z' }

  function LowerChar(c: char): char
  {
    if IsUpperAscii(c) then (c as int + 32) as char else c
  }

  function UpperChar(c: char): char
  {
    if IsLowerAscii(c) then (c as int - 32) as char else c
  }

  /** str.lower on ASCII letters. */
  function Lower(s: string): (r: string)
    ensures |r| == |s|
    ensures forall i :: 0 <= i < |s| ==> r[i] == LowerChar(s[i])
  {
    seq(|s|, i requires 0 <= i < |s| => LowerChar(s[i]))
  }

  /** str.upper on ASCII letters. */
  function Upper(s: string): (r: string)
    ensures |r| == |s|
    ensures forall i :: 0 <= i < |s| ==> r[i] == UpperChar(s[i])
  {
    seq(|s|, i requires 0 <= i < |s| => UpperChar(s[i]))
  }

  /** No upper-case ASCII letter occurs in `s`. */
  predicate IsLowerCase(s: string)
  {
    forall i :: 0 <= i < |s| ==> !IsUpperAscii(s[i])
  }

  /** Lowering yields a lower-case string, leaves lower-case strings alone,
      and so is idempotent. */
  lemma LowerIsLowerCase(s: string)
    ensures IsLowerCase(Lower(s))
    ensures IsLowerCase(s) ==> Lower(s) == s
    ensures Lower(Lower(s)) == Lower(s)
  {
    var l := Lower(s);
    assert forall i :: 0 <= i < |s| ==> !IsUpperAscii(l[i]);
    if IsLowerCase(s) {
      assert forall i :: 0 <= i < |s| ==> l[i] == s[i];
    }
    assert forall i :: 0 <= i < |s| ==> Lower(l)[i] == l[i];
  }

  predicate IsUpperCase(s: string)
  {
    forall i :: 0 <= i < |s| ==> !IsLowerAscii(s[i])
  }

  /** Upper-casing leaves no lower-case letter: each one becomes the capital
      that lowers back to it, every other character is kept, so it is
      idempotent and forgets nothing that lowering keeps. */
  lemma UpperIsUpperCase(s: string)
    ensures IsUpperCase(Upper(s))
    ensures forall i :: 0 <= i < |s| && IsLowerAscii(s[i]) ==> IsUpperAscii(Upper(s)[i]) && LowerChar(Upper(s)[i]) == s[i]
    ensures forall i :: 0 <= i < |s| && !IsLowerAscii(s[i]) ==> Upper(s)[i] == s[i]
    ensures Upper(Upper(s)) == Upper(s)
    ensures Lower(Upper(s)) == Lower(s)
  {
    var u := Upper(s);
    assert forall i :: 0 <= i < |s| ==> !IsLowerAscii(u[i]);
    assert forall i :: 0 <= i < |s| ==> Upper(u)[i] == u[i];
    assert forall i :: 0 <= i < |s| ==> Lower(u)[i] == Lower(s)[i];
  }

  /** The characters str.isspace() accepts. */
  predicate IsSpace(c: char)
  {
    c == ' ' || '\t' <= c <= '\r' || '\U{1c}' <= c <= '\U{1f}'
    || c == '\U{85}' || c == '\U{a0}' || c == '\U{1680}'
    || '\U{2000}' <= c <= '\U{200a}' || c == '\U{2028}' || c == '\U{2029}'
    || c == '\U{202f}' || c == '\U{205f}' || c == '\U{3000}'
  }

  /** Drop leading whitespace. */
  function TrimStart(s: string): string
  {
    if s != [] && IsSpace(s[0]) then TrimStart(s[1..]) else s
  }

  /** What TrimStart keeps is a suffix of its input starting with a non-blank,
      and everything it drops is whitespace. */
  lemma {:induction false} TrimStartSpec(s: string)
    ensures var r := TrimStart(s);
      && |r| <= |s| && r == s[|s| - |r|..]
      && (r != [] ==> !IsSpace(r[0]))
      && (forall i :: 0 <= i < |s| - |r| ==> IsSpace(s[i]))
  {
    if s != [] && IsSpace(s[0]) {
      TrimStartSpec(s[1..]);
      var r := TrimStart(s);
      forall i | 1 <= i < |s| - |r| ensures IsSpace(s[i]) {
        assert s[i] == s[1..][i - 1];
      }
    }
  }

  /** Drop trailing whitespace. */
  function TrimEnd(s: string): string
  {
    if s != [] && IsSpace(s[|s| - 1]) then TrimEnd(s[..|s| - 1]) else s
  }

  /** What TrimEnd keeps is a prefix of its input ending with a non-blank,
      and everything it drops is whitespace. */
  lemma {:induction false} TrimEndSpec(s: string)
    ensures var r := TrimEnd(s);
      && |r| <= |s| && r == s[..|r|]
      && (r != [] ==> !IsSpace(r[|r| - 1]))
      && (forall i :: |r| <= i < |s| ==> IsSpace(s[i]))
  {
    if s != [] && IsSpace(s[|s| - 1]) {
      TrimEndSpec(s[..|s| - 1]);
    }
  }

  /** str.strip(): drop leading and trailing whitespace. */
  function Strip(s: string): string
  {
    TrimEnd(TrimStart(s))
  }

  /** The stripped string is a slice of the input with no whitespace at either
      end, and everything cut off is whitespace; it is empty exactly when the
      input is all whitespace. */
  lemma StripSpec(s: string)
    ensures exists a, b :: (0 <= a <= b <= |s| && Strip(s) == s[a..b]
      && (forall i :: 0 <= i < a ==> IsSpace(s[i]))
      && (forall i :: b <= i < |s| ==> IsSpace(s[i])))
    ensures Strip(s) != [] ==> !IsSpace(Strip(s)[0]) && !IsSpace(Strip(s)[|Strip(s)| - 1])
    ensures Strip(s) == [] <==> forall i :: 0 <= i < |s| ==> IsSpace(s[i])
  {
    var t := TrimStart(s);
    TrimStartSpec(s);
    var a := |s| - |t|;
    var r := TrimEnd(t);
    TrimEndSpec(t);
    var b := a + |r|;
    assert r == s[a..b];
    forall i | b <= i < |s| ensures IsSpace(s[i]) {
      assert s[i] == t[i - a];
    }
    if r == [] {
      assert t == [];
    } else {
      assert s[a] == r[0] && !IsSpace(s[a]);
    }
  }

  /** str.strip is determined by where the blanks end: when everything
      before `a` and from `b` on is whitespace and the slice between starts
      and ends with a non-blank, the slice is the stripped string. */
  lemma StripBetween(s: string, a: nat, b: nat)
    requires a < b <= |s|
    requires forall i :: 0 <= i < a ==> IsSpace(s[i])
    requires forall i :: b <= i < |s| ==> IsSpace(s[i])
    requires !IsSpace(s[a]) && !IsSpace(s[b - 1])
    ensures Strip(s) == s[a..b]
  {
    var t := TrimStart(s);
    TrimStartSpec(s);
    var k := |s| - |t|;
    assert |t| > 0 ==> t[0] == s[k];
    assert t == s[a..];
    var r := TrimEnd(t);
    TrimEndSpec(t);
    assert |r| > 0 ==> r[|r| - 1] == s[a + |r| - 1];
    assert t[b - a - 1] == s[b - 1];
  }

  /** Blanks go at both ends of an extension field. */
  lemma StripExtensionExample()
    ensures Strip(" .MKV ") == ".MKV"
  {
    StripBetween(" .MKV ", 1, 5);
    assert " .MKV "[1..5] == ".MKV";
  }

  /** Blanks go at both ends of a folder field. */
  lemma StripFolderExample()
    ensures Strip(" Films ") == "Films"
  {
    StripBetween(" Films ", 1, 6);
    assert " Films "[1..6] == "Films";
  }

  /** A field without blanks at its ends is kept as it is. */
  lemma StripUnchanged(s: string)
    requires s != [] && !IsSpace(s[0]) && !IsSpace(s[|s| - 1])
    ensures Strip(s) == s
  {
    StripBetween(s, 0, |s|);
    assert s[0..|s|] == s;
  }

  /** A blank-only field becomes empty. */
  lemma StripBlankExample()
    ensures Strip("   ") == ""
  {
    assert "   "[1..] == "  " && "  "[1..] == " " && " "[1..] == "";
  }

  /** Capitals are lowered and the dot stays. */
  lemma LowerExample()
    ensures Lower(".MKV") == ".mkv"
    ensures Lower("mkv") == "mkv" && Lower(".") == "." && Lower(".mkv") == ".mkv"
  {
    var l := Lower(".MKV");
    assert l[0] == '.' && l[1] == 'm' && l[2] == 'k' && l[3] == 'v';
    LowerIsLowerCase("mkv");
    LowerIsLowerCase(".");
    LowerIsLowerCase(".mkv");
  }

  /** str.rfind for one character: the index of the last occurrence, or -1. */
  function RFind(s: string, c: char): (i: int)
    ensures -1 <= i < |s|
    ensures i >= 0 ==> s[i] == c
    ensures forall k :: i < k < |s| ==> s[k] != c
  {
    if s == [] then -1
    else if s[|s| - 1] == c then |s| - 1
    else RFind(s[..|s| - 1], c)
  }

  /** os.path.splitext on a POSIX path: the extension runs from the last dot
      after the last '/', provided that dot is preceded in its component by a
      character other than a dot; otherwise the extension is empty. */
  function SplitExt(p: string): (string, string)
  {
    var sep := RFind(p, '/');
    var dot := RFind(p, '.');
    if dot > sep && exists k :: sep + 1 <= k < dot && p[k] != '.' then
      (p[..dot], p[dot..])
    else
      (p, "")
  }

  /** The extension os.path.splitext reports for `p`. */
  function Extension(p: string): string
  {
    SplitExt(p).1
  }

  /** A component name that has a dot preceded somewhere by a non-dot character. */
  predicate HasDottedSuffix(name: string)
  {
    exists i, j :: 0 <= j < i < |name| && name[i] == '.' && name[j] != '.'
  }

  /** splitext cuts the input in two; a non-empty extension starts with the
      only dot it contains; and for a component name (no '/') the extension
      is non-empty exactly when the name has a dot preceded by a non-dot. */
  lemma SplitExtSpec(p: string)
    ensures SplitExt(p).0 + SplitExt(p).1 == p
    ensures var ext := SplitExt(p).1;
      ext == "" || (ext[0] == '.' && (forall k :: 1 <= k < |ext| ==> ext[k] != '.' && ext[k] != '/'))
    ensures (forall k :: 0 <= k < |p| ==> p[k] != '/') ==>
      (SplitExt(p).1 != "" <==> HasDottedSuffix(p))
  {
    var sep := RFind(p, '/');
    var dot := RFind(p, '.');
    if dot > sep && exists k :: sep + 1 <= k < dot && p[k] != '.' {
      assert p[..dot] + p[dot..] == p;
      var ext := p[dot..];
      forall k | 1 <= k < |ext| ensures ext[k] != '.' && ext[k] != '/' {
        assert ext[k] == p[dot + k];
      }
    }
    if forall k :: 0 <= k < |p| ==> p[k] != '/' {
      assert sep == -1;
      if HasDottedSuffix(p) {
        var i, j :| 0 <= j < i < |p| && p[i] == '.' && p[j] != '.';
        assert dot >= i;
        assert sep + 1 <= j < dot && p[j] != '.';
      }
      if SplitExt(p).1 != "" {
        var k :| sep + 1 <= k < dot && p[k] != '.';
        assert 0 <= k < dot < |p| && p[dot] == '.';
      }
    }
  }

  /** A name with a single dot, not in first position, has the extension that
      starts at that dot. */
  lemma SingleDotExtension(name: string, k: nat)
    requires 0 < k < |name| && name[k] == '.'
    requires forall i :: 0 <= i < |name| && i != k ==> name[i] != '.' && name[i] != '/'
    requires name[k] != '/'
    ensures Extension(name) == name[k..]
  {
    assert RFind(name, '.') == k;
    assert RFind(name, '/') == -1;
    assert name[0] != '.';
  }

  /** The lowered extensions of the worked file names: one dot, lower-case
      letters after it. */
  lemma PdfExtension()
    ensures Lower(Extension("a.pdf")) == ".pdf"
  {
    SingleDotExtension("a.pdf", 1);
    assert "a.pdf"[1..] == ".pdf";
    LowerIsLowerCase(".pdf");
  }

  lemma Mp4Extension()
    ensures Lower(Extension("b.mp4")) == ".mp4"
  {
    SingleDotExtension("b.mp4", 1);
    assert "b.mp4"[1..] == ".mp4";
    LowerIsLowerCase(".mp4");
  }

  lemma XyzExtension()
    ensures Lower(Extension("c.xyz")) == ".xyz"
    ensures Upper(".xyz"[1..]) == "XYZ"
  {
    SingleDotExtension("c.xyz", 1);
    assert "c.xyz"[1..] == ".xyz";
    LowerIsLowerCase(".xyz");
    assert ".xyz"[1..] == "xyz";
    var u := Upper("xyz");
    assert u[0] == 'X' && u[1] == 'Y' && u[2] == 'Z';
  }

  /** The worked cases of os.path.splitext: only the last dot counts, a
      leading-dot name has no extension, and a trailing dot is an extension. */
  lemma SplitExtExamples()
    ensures Extension("a.tar.gz") == ".gz"
    ensures Extension(".bashrc") == ""
    ensures Extension("file.") == "."
    ensures Extension("README") == ""
    ensures Extension("..hidden.txt") == ".txt"
  {
    var i := RFind(".bashrc", '.');
    assert ".bashrc"[0] == '.';
    assert i == 0;
    i := RFind("..hidden.txt", '.');
    assert "..hidden.txt"[8] == '.';
    assert i == 8;
    assert "..hidden.txt"[2] != '.';
    i := RFind("a.tar.gz", '.');
    assert "a.tar.gz"[5] == '.';
    assert i == 5;
    assert "a.tar.gz"[0] != '.';
    i := RFind("file.", '.');
    assert i == 4;
    assert "file."[0] != '.';
  }
}
