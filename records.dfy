/** The resume record the upload page saves under `resume:<id>` in the key-value store and
    the home page and the wipe panel read back. A JSON field that is missing or falsy is
    the empty string here. */
module Records {

  datatype Resume = Resume(
    id: string,
    resumePath: string,
    imagePath: string,
    companyName: string,
    jobTitle: string,
    jobDescription: string,
    feedback: string)

  /** The key-value key of a resume: `resume:${id}`. */
  function KeyFor(id: string): (key: string)
    ensures |key| == |id| + 7 && key[..7] == "resume:" && key[7..] == id
  {
    "resume:" + id
  }

  /** Different ids give different keys. */
  lemma KeyForInjective(a: string, b: string)
    requires KeyFor(a) == KeyFor(b)
    ensures a == b
  {
    assert a == KeyFor(a)[7..];
  }
}
