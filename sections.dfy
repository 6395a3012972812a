/** The three result areas of the page (progress, results, error) and `showSection`,
    which hides all of them and then reveals at most one. */
module Sections {
  import opened Wrappers

  datatype Section = Progress | Results | Error

  /** The name `showSection` is called with for each section. */
  function SectionName(s: Section): string
  {
    match s
    case Progress => "progress"
    case Results => "results"
    case Error => "error"
  }

  /** The section a name selects; any other name (`'none'` among them) selects none. */
  function SectionNamed(name: string): (s: Option<Section>)
    ensures s.Some? ==> SectionName(s.value) == name
    ensures s.None? <==> name != "progress" && name != "results" && name != "error"
  {
    if name == "progress" then Some(Progress)
    else if name == "results" then Some(Results)
    else if name == "error" then Some(Error)
    else None
  }

  /** The `hidden` class of the three section elements. */
  class Panels {
    var progressHidden: bool
    var resultsHidden: bool
    var errorHidden: bool

    /** The state the page was loaded in. */
    constructor (progressHidden: bool, resultsHidden: bool, errorHidden: bool)
      ensures this.progressHidden == progressHidden
      ensures this.resultsHidden == resultsHidden
      ensures this.errorHidden == errorHidden
    {
      this.progressHidden := progressHidden;
      this.resultsHidden := resultsHidden;
      this.errorHidden := errorHidden;
    }

    /** The sections currently shown. */
    function Visible(): set<Section>
      reads this
    {
      (if progressHidden then {} else {Progress}) +
      (if resultsHidden then {} else {Results}) +
      (if errorHidden then {} else {Error})
    }

    /** `showSection(section)`: afterwards exactly the named section is shown, or none
        when the name is not one of the three. */
    method ShowSection(section: string)
      modifies this
      ensures progressHidden == (section != "progress")
      ensures resultsHidden == (section != "results")
      ensures errorHidden == (section != "error")
      ensures Visible() == match SectionNamed(section) case Some(s) => {s} case None => {}
    {
      progressHidden := true;
      resultsHidden := true;
      errorHidden := true;
      if section == "progress" {
        progressHidden := false;
      } else if section == "results" {
        resultsHidden := false;
      } else if section == "error" {
        errorHidden := false;
      }
    }

    /** The part of `resetToForm` that concerns the sections: all three hidden, so
        only the story form remains. */
    method ResetToForm()
      modifies this
      ensures progressHidden && resultsHidden && errorHidden
      ensures Visible() == {}
    {
      ShowSection("none");
    }
  }
}
