/** The summarize page: picking a PDF (from disk or from the saved
    materials) and producing the summary shown below the form. The page
    does not call the summary service on submit: it shows a fixed summary. */
module Summarize {
  import opened Wrappers
  import opened Files

  /** The summary text the submit handler shows. */
  const MockSummary: string := @"# Operating System Process Synchronization Summary

## Key Points

* **Process Synchronization** is a fundamental concept in operating systems that manages concurrent access to shared resources
* **Race Conditions** occur when multiple processes access shared data simultaneously
* **Critical Section** is the part of code where shared resources are accessed
* **Mutual Exclusion** ensures only one process can execute in the critical section at a time

## Important Details

### Synchronization Mechanisms

1. **Mutex Locks**
   * Simple solution for mutual exclusion
   * Uses acquire() and release() operations
   * Provides strict mutual exclusion

2. **Semaphores**
   * More versatile than mutex locks
   * Can handle multiple resources
   * Types:
     * Binary semaphores (similar to mutex)
     * Counting semaphores (for multiple resources)

3. **Monitors**
   * High-level synchronization construct
   * Provides built-in mutual exclusion
   * Uses condition variables for process coordination

## Conclusions

* Process synchronization is crucial for maintaining data consistency
* Multiple solutions exist, each with their own trade-offs
* Key challenges include:
  * Avoiding deadlocks
  * Preventing starvation
  * Ensuring fairness"

  /** The toast a handler raises, if any. */
  datatype Notice = NoNotice | ErrorNotice(text: string) | SuccessNotice(text: string)

  const SelectedMaterialName := "selected-material.pdf"

  /** The file built from a saved material's downloaded blob of `size` bytes. */
  function SelectedMaterial(size: nat): (f: File)
    ensures f.name == SelectedMaterialName && f.fileType == PdfType && f.size == size
  {
    File(SelectedMaterialName, PdfType, size)
  }

  /** A saved material is taken without the picker's check: it passes that
      check exactly when it is at most 5 MiB, yet it is selected either way. */
  lemma SelectedMaterialSkipsSizeCheck(size: nat)
    ensures Acceptable(SelectedMaterial(size)) <==> size <= MaxUploadBytes
    ensures size > MaxUploadBytes ==> SelectFiles([SelectedMaterial(size)]).valid == []
  {
    SingleFile(SelectedMaterial(size));
  }

  /** The page's state: the picked files, whether the material picker is
      open, and the summary shown. */
  class SummarizePage {
    var files: seq<File>
    var showSelectMaterial: bool
    var summary: string

    constructor()
      ensures files == [] && !showSelectMaterial && summary == ""
    {
      files := [];
      showSelectMaterial := false;
      summary := "";
    }

    /** `handleFileChange`: the selection is replaced by the acceptable
        files; the result says whether the rejection notice is shown. */
    method HandleFileChange(selected: seq<File>) returns (notice: bool)
      modifies this
      ensures files == SelectFiles(selected).valid
      ensures notice == SelectFiles(selected).notice
      ensures summary == old(summary) && showSelectMaterial == old(showSelectMaterial)
    {
      var selection := SelectFiles(selected);
      notice := selection.notice;
      files := selection.valid;
    }

    /** `handleSubmitWithFiles`: without a file only the error notice;
        otherwise the summary is cleared and then set to the fixed text. */
    method HandleSubmitWithFiles() returns (notice: Notice)
      modifies this
      ensures old(files) == [] ==> notice == ErrorNotice("Please select a file first") && summary == old(summary)
      ensures old(files) != [] ==> notice == SuccessNotice("Summary generated successfully!") && summary == MockSummary
      ensures files == old(files) && showSelectMaterial == old(showSelectMaterial)
    {
      if |files| == 0 {
        return ErrorNotice("Please select a file first");
      }
      summary := "";
      summary := MockSummary;
      notice := SuccessNotice("Summary generated successfully!");
    }

    /** `handleMaterialSelect(url)`. `download` is what fetching `url` and
        reading its body gives: the blob's size, or the error thrown. */
    method HandleMaterialSelect(url: string, download: Result<nat>) returns (notice: Notice)
      modifies this
      ensures download.Ok? ==>
        && files == [SelectedMaterial(download.value)] && !showSelectMaterial && notice == NoNotice
      ensures download.Err? ==>
        && files == old(files) && showSelectMaterial == old(showSelectMaterial)
        && notice == ErrorNotice("Failed to load the selected material")
      ensures summary == old(summary)
    {
      if download.Err? {
        return ErrorNotice("Failed to load the selected material");
      }
      var file := File(SelectedMaterialName, PdfType, download.value);
      files := [file];
      showSelectMaterial := false;
      notice := NoNotice;
    }

    /** The completion hook's `onError`: the notice, and the files are cleared. */
    method OnError() returns (notice: Notice)
      modifies this
      ensures files == [] && notice == ErrorNotice("Failed to generate summary. Please try again.")
      ensures summary == old(summary) && showSelectMaterial == old(showSelectMaterial)
    {
      notice := ErrorNotice("Failed to generate summary. Please try again.");
      files := [];
    }
  }
}
