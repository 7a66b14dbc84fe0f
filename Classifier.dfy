/** The word-file classifier of backup-disc.py: the module function
    `is_word_file` and the constant `WORD_EXTENSIONS` it consults. */
module Classifier {
  import opened PathStrings

  /** The extensions that mark a Word document, lower-case with the dot. */
  const WORD_EXTENSIONS: set<string> := {".doc", ".docx"}

  /** `is_word_file`: the extension `splitext` finds, lower-cased, is one of
      WORD_EXTENSIONS. */
  predicate IsWordFile(fileName: string)
    ensures IsWordFile(fileName) ==> exists e | e in WORD_EXTENSIONS ::
      |e| <= |fileName| && Lower(fileName[|fileName| - |e|..]) == e
  {
    var ext := SplitExt(fileName).1;
    assert fileName[|fileName| - |ext|..] == ext;
    Lower(ext) in WORD_EXTENSIONS
  }

  /** A reading of the classifier that does not go through `splitext`: the name
      ends, ignoring case, in the extension `e`, and some character other than a
      dot comes before it. */
  predicate EndsWithExtension(name: string, e: string) {
    |e| <= |name| && Lower(name[|name| - |e|..]) == e && !AllDots(name[..|name| - |e|])
  }

  predicate HasWordSuffix(name: string) {
    exists e | e in WORD_EXTENSIONS :: EndsWithExtension(name, e)
  }

  /** Every Word extension is a dot followed by characters that are neither
      dots nor separators. */
  lemma WordExtensionsWellFormed()
    ensures forall e | e in WORD_EXTENSIONS ::
      |e| > 0 && e[0] == '.' && forall j | 0 < j < |e| :: e[j] != '.' && !IsSep(e[j])
  {
    forall e | e in WORD_EXTENSIONS
      ensures |e| > 0 && e[0] == '.' && forall j | 0 < j < |e| :: e[j] != '.' && !IsSep(e[j])
    {
      assert e == ".doc" || e == ".docx";
    }
  }

  /** For a name without separators, the extension is what follows its last dot. */
  lemma ExtOfName(c: string, k: int)
    requires LastDotAt(c, k)
    ensures SplitExt(c).1 == if 0 <= k && !AllDots(c[..k]) then c[k..] else ""
  {
    LastSepUnique(c, -1);
    LastDotUnique(c, k);
    var sepIndex := LastSep(c);
    var dotIndex := LastDot(c);
    assert sepIndex == -1 && dotIndex == k;
    if 0 <= k {
      assert c[sepIndex + 1..dotIndex] == c[..k];
    }
  }

  lemma WordFileHasWordSuffix(c: string)
    requires forall j | 0 <= j < |c| :: !IsSep(c[j])
    requires IsWordFile(c)
    ensures HasWordSuffix(c)
  {
    var k := LastDot(c);
    ExtOfName(c, k);
    var ext := SplitExt(c).1;
    var e := Lower(ext);
    assert e in WORD_EXTENSIONS;
    assert ext == c[k..] && |e| == |c| - k;
    assert EndsWithExtension(c, e);
  }

  lemma WordSuffixMakesWordFile(c: string, e: string)
    requires forall j | 0 <= j < |c| :: !IsSep(c[j])
    requires e in WORD_EXTENSIONS && EndsWithExtension(c, e)
    ensures IsWordFile(c)
  {
    WordExtensionsWellFormed();
    var k := |c| - |e|;
    var tail := c[k..];
    assert Lower(tail) == e;
    assert LowerChar(tail[0]) == e[0];
    LowerOfDot(tail[0]);
    forall j | k < j < |c| ensures c[j] != '.' {
      assert c[j] == tail[j - k];
      assert LowerChar(tail[j - k]) == e[j - k];
      LowerOfDot(c[j]);
    }
    ExtOfName(c, k);
  }

  lemma NameClassification(c: string)
    requires forall j | 0 <= j < |c| :: !IsSep(c[j])
    ensures IsWordFile(c) <==> HasWordSuffix(c)
  {
    if IsWordFile(c) {
      WordFileHasWordSuffix(c);
    }
    if HasWordSuffix(c) {
      var e :| e in WORD_EXTENSIONS && EndsWithExtension(c, e);
      WordSuffixMakesWordFile(c, e);
    }
  }

  /** The classifier holds exactly when the final component ends, ignoring
      case, in ".doc" or ".docx" with a character other than a dot before it:
      only the last suffix counts, a name without a dot or with nothing but
      dots before its extension is not a Word file. */
  lemma IsWordFileIffWordSuffix(p: string)
    ensures IsWordFile(p) <==> HasWordSuffix(LastComponent(p))
  {
    ExtOfLastComponent(p);
    NameClassification(LastComponent(p));
  }

  /** Letter case does not matter. */
  lemma IsWordFileIgnoresCase(p: string)
    ensures IsWordFile(Lower(p)) <==> IsWordFile(p)
  {
    ExtOfLower(p);
    LowerIdempotent(SplitExt(p).1);
  }

  /** `name` has no separator, a dot at `k` (or none when `k` is -1) and no
      dot after it: the facts ExtOfName needs, checked on a literal. */
  predicate LastDotAt(name: string, k: int) {
    && (forall j | 0 <= j < |name| :: !IsSep(name[j]))
    && -1 <= k < |name| && (0 <= k ==> name[k] == '.')
    && (forall j | k < j < |name| :: name[j] != '.')
  }

  /** A final suffix that lower-cases to a Word extension, after a stem that
      is not all dots, is tracked: "Report.DOCX", "a.txt.docx". */
  lemma WordSuffixTracked(stem: string, ext: string)
    requires forall j | 0 <= j < |stem| :: !IsSep(stem[j])
    requires !AllDots(stem) && Lower(ext) in WORD_EXTENSIONS
    ensures IsWordFile(stem + ext)
  {
    var c := stem + ext;
    WordExtensionsWellFormed();
    forall j | 0 <= j < |ext| ensures !IsSep(ext[j]) {
      LowerOfDot(ext[j]);
      assert Lower(ext)[j] == LowerChar(ext[j]);
    }
    assert c[|c| - |ext|..] == ext && c[..|c| - |ext|] == stem;
    assert EndsWithExtension(c, Lower(ext));
    WordSuffixMakesWordFile(c, Lower(ext));
  }

  /** A name without a dot has no extension: "noext". */
  lemma NoDotUntracked(name: string)
    requires forall j | 0 <= j < |name| :: name[j] != '.'
    ensures !IsWordFile(name)
  {
    LastDotUnique(name, -1);
    assert SplitExt(name).1 == "";
    assert Lower("") == "";
    assert "" !in WORD_EXTENSIONS;
  }

  /** A final component made of dots and then a dot-free tail has no
      extension: ".docx", "..docx". */
  lemma DotsBeforeSuffixUntracked(dots: string, tail: string)
    requires AllDots(dots)
    requires forall j | 0 <= j < |tail| :: tail[j] != '.' && !IsSep(tail[j])
    ensures !IsWordFile(dots + tail)
  {
    var c := dots + tail;
    LastSepUnique(c, -1);
    LastDotUnique(c, |dots| - 1);
    if |dots| > 0 {
      assert c[0..|dots| - 1] == dots[..|dots| - 1];
    }
    assert SplitExt(c).1 == "";
    assert Lower("") == "";
    assert "" !in WORD_EXTENSIONS;
  }

  /** When the final suffix is some other extension, an earlier Word
      extension does not help: "a.docx.txt", "notes.txt". */
  lemma OtherSuffixUntracked(stem: string, ext: string)
    requires ext != [] && ext[0] == '.'
    requires forall j | 0 < j < |ext| :: ext[j] != '.' && !IsSep(ext[j])
    requires Lower(ext) !in WORD_EXTENSIONS
    ensures !IsWordFile(stem + ext)
  {
    var c := stem + ext;
    LastDotUnique(c, |stem|);
    assert LastSep(c) < |stem|;
    assert c[|stem|..] == ext;
    assert Lower("") == "";
    assert "" !in WORD_EXTENSIONS;
  }

  /** Worked examples of the classification, one per kind of name. */
  lemma ReportDocxTracked()
    ensures IsWordFile("Report.DOCX")
  {
    var stem, ext := "Report", ".DOCX";
    assert Lower(ext) == ".docx";
    assert stem + ext == "Report.DOCX";
    assert stem[0] != '.';
    WordSuffixTracked(stem, ext);
  }

  lemma InnerTxtIgnored()
    ensures IsWordFile("a.txt.docx")
  {
    var stem, ext := "a.txt", ".docx";
    assert Lower(ext) == ext;
    assert stem + ext == "a.txt.docx";
    assert stem[0] != '.';
    WordSuffixTracked(stem, ext);
  }

  lemma InnerDocxIgnored()
    ensures !IsWordFile("a.docx.txt")
  {
    var stem, ext := "a.docx", ".txt";
    assert Lower(ext) == ext;
    assert stem + ext == "a.docx.txt";
    OtherSuffixUntracked(stem, ext);
  }

  lemma NotesTxtUntracked()
    ensures !IsWordFile("notes.txt")
  {
    var stem, ext := "notes", ".txt";
    assert Lower(ext) == ext;
    assert stem + ext == "notes.txt";
    OtherSuffixUntracked(stem, ext);
  }

  lemma NoExtUntracked()
    ensures !IsWordFile("noext")
  {
    var name := "noext";
    assert forall j | 0 <= j < |name| :: name[j] in "noext";
    NoDotUntracked(name);
  }

  lemma LeadingDotUntracked()
    ensures !IsWordFile(".docx")
  {
    var dots, tail := ".", "docx";
    assert dots + tail == ".docx";
    DotsBeforeSuffixUntracked(dots, tail);
  }
}
