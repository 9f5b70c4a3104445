/** The file-picker check shared by the materials and summarize pages: only
    PDF files of at most 5 MiB are kept, and a notice is raised when any
    selected file was turned away. */
module Files {
  import Seqs

  /** A browser `File`: its name, MIME type and size in bytes. */
  datatype File = File(name: string, fileType: string, size: nat)

  const PdfType := "application/pdf"

  /** `5 * 1024 * 1024` bytes. */
  const MaxUploadBytes: nat := 5 * 1024 * 1024

  /** The test inside the `filter` call. */
  predicate Acceptable(f: File) {
    f.fileType == PdfType && f.size <= MaxUploadBytes
  }

  /** What the change handler computes: the files it keeps and whether the
      "Only PDF files under 5MB are allowed." notice is shown. */
  datatype Selection = Selection(valid: seq<File>, notice: bool)

  function SelectFiles(selected: seq<File>): (r: Selection)
    ensures |r.valid| <= |selected|
    ensures forall i :: 0 <= i < |r.valid| ==> Acceptable(r.valid[i]) && r.valid[i] in selected
    ensures r.notice <==> |r.valid| != |selected|
  {
    var valid := Seqs.Filter(selected, Acceptable);
    Selection(valid, |valid| != |selected|)
  }

  /** A file is kept exactly when it was selected and passes the test. */
  lemma KeepsExactlyAcceptable(selected: seq<File>, f: File)
    ensures f in SelectFiles(selected).valid <==> f in selected && Acceptable(f)
  {
    Seqs.FilterMembership(selected, Acceptable, f);
  }

  /** The kept files keep their order: selecting `a + b` keeps the kept
      files of `a` followed by the kept files of `b`, and a single file is
      kept alone or dropped. */
  lemma KeepsOrder(a: seq<File>, b: seq<File>)
    ensures SelectFiles(a + b).valid == SelectFiles(a).valid + SelectFiles(b).valid
  {
    Seqs.FilterConcat(a, b, Acceptable);
  }

  lemma SingleFile(f: File)
    ensures SelectFiles([f]).valid == if Acceptable(f) then [f] else []
    ensures SelectFiles([f]).notice <==> !Acceptable(f)
  {
    Seqs.FilterSingleton(f, Acceptable);
  }

  /** The notice is shown exactly when some selected file is rejected, and
      when it is not shown the selection is kept as it was. */
  lemma NoticeIffRejected(selected: seq<File>)
    ensures SelectFiles(selected).notice <==> exists i :: 0 <= i < |selected| && !Acceptable(selected[i])
    ensures !SelectFiles(selected).notice ==> SelectFiles(selected).valid == selected
  {
    Seqs.FilterKeepsAll(selected, Acceptable);
  }

  /** A file one byte over the limit is rejected; one exactly at it is kept. */
  lemma SizeLimitIsInclusive(name: string)
    ensures Acceptable(File(name, PdfType, MaxUploadBytes))
    ensures !Acceptable(File(name, PdfType, MaxUploadBytes + 1))
  {
  }
}
