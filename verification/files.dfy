/** The file system as the pipeline sees it: the text of every file there
    is, by path. Reading a missing path is the `FileNotFoundError` case. */
module FileSystem {

  type Files = map<string, string>

  /** `os.path.exists(path)` for a file. */
  predicate Exists(fs: Files, path: string) {
    path in fs
  }

  /** `path` is absent from both, or holds the same text in both. */
  predicate SameAt(fs: Files, fs': Files, path: string) {
    (path in fs' <==> path in fs) && (path in fs ==> fs'[path] == fs[path])
  }

  /** `path` holds, after the change from `fs` to `fs'`, a file it did not
      hold before. */
  predicate Changed(fs: Files, fs': Files, path: string) {
    path in fs' && (path !in fs || fs'[path] != fs[path])
  }

  /** Position of the last `.` of `name`, or -1. */
  function LastDot(name: string): (i: int)
    ensures -1 <= i < |name|
    ensures i >= 0 ==> name[i] == '.'
    ensures forall k :: i < k < |name| ==> name[k] != '.'
  {
    if name == [] then -1
    else if name[|name| - 1] == '.' then |name| - 1
    else LastDot(name[..|name| - 1])
  }

  /** `Path(name).stem`: the name without its last suffix; a name whose
      only dot leads it, or ends it, has no suffix. */
  function Stem(name: string): string {
    var i := LastDot(name);
    if 0 < i < |name| - 1 then name[..i] else name
  }

  /** `output_dir / f"{pdf.stem}_gemini.jsonl"` */
  function OutputPath(outputDir: string, pdfName: string): string {
    outputDir + "/" + Stem(pdfName) + "_gemini.jsonl"
  }

  /** A PDF's stem is its name without `.pdf`; a file named just `.pdf`
      keeps its whole name. */
  lemma StemOfPdf(base: string)
    requires '.' !in base
    ensures base != [] ==> Stem(base + ".pdf") == base
    ensures base == [] ==> Stem(base + ".pdf") == ".pdf"
  {
    var name := base + ".pdf";
    assert name[|name| - 1] == 'f' && name[|name| - 2] == 'd' && name[|name| - 3] == 'p';
    assert name[..|name| - 1][..|name| - 2][..|name| - 3] == name[..|name| - 3];
    assert name[..|name| - 3][..|name| - 4] == base;
    assert name[|name| - 4] == '.';
    assert LastDot(name) == LastDot(name[..|name| - 3]);
    assert LastDot(name) == |name| - 4;
  }
}
