/**
  * The records that flow through the pipeline: a scraped posting, its
  * normalised form, and a normalised resume. Defaults are those the records
  * declare.
  */
module Models {
  import opened Wrappers

  /** A posting date, as seconds since the epoch. */
  type Timestamp = int

  /** A raw posting as produced by a scraper. */
  datatype Job = Job(
    id: string,
    title: string,
    company: string,
    location: string,
    description: string,
    url: string,
    source: string,
    postedDate: Option<Timestamp> := None,
    rawData: map<string, string> := map[])

  /** Whether a posting is likely to sponsor a work visa. */
  datatype VisaSignal = Likely | Unlikely | Unclear {
    /** The label the source stores in the record. */
    function Label(): string {
      match this
      case Likely => "LIKELY"
      case Unlikely => "UNLIKELY"
      case Unclear => "UNCLEAR"
    }
  }

  /** A posting reduced to the attributes the score uses. An experience of
      0.0 means unspecified, that is entry level. */
  datatype NormalizedJob = NormalizedJob(
    jobId: string,
    requiredSkills: seq<string> := [],
    experienceYears: real := 0.0,
    visaSponsorship: VisaSignal := Unclear,
    keywords: seq<string> := [])

  /** A resume reduced to the attributes the score uses. */
  datatype NormalizedResume = NormalizedResume(
    skills: seq<string> := [],
    yearsOfExperience: real := 0.0,
    visaStatus: string := "US Citizen",
    roleFamily: string := "Software Engineer",
    education: seq<string> := [],
    experienceBullets: seq<string> := [])
}
