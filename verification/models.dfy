/** The records the core reads and produces: the stored job and profile rows,
    the profile as the API receives it, and the profile dictionary the
    scoring and tailoring code consume. */
module Models {
  import opened Wrappers

  /** A stored job posting. */
  datatype Job = Job(
    id: int,
    source: string,
    company: string,
    title: string,
    location: Option<string>,
    url: string,
    description: Option<string>,
    department: Option<string>,
    isActive: bool)

  /** The stored profile: skills as one comma-separated text, truth bullets as
      one newline-separated text. */
  datatype ProfileRecord = ProfileRecord(
    id: int,
    fullName: string,
    email: string,
    phone: Option<string>,
    location: Option<string>,
    linkedin: Option<string>,
    summary: Option<string>,
    skillsCsv: Option<string>,
    truthBullets: Option<string>,
    resumeText: Option<string>)

  /** The profile payload posted to the API. */
  datatype ProfileIn = ProfileIn(
    fullName: string,
    email: string,
    phone: Option<string>,
    location: Option<string>,
    linkedin: Option<string>,
    summary: Option<string>,
    skills: seq<string>,
    truthBullets: seq<string>)

  /** The profile as a dictionary with skills and bullets split into lists. */
  datatype ProfileDict = ProfileDict(
    id: int,
    fullName: string,
    email: string,
    phone: Option<string>,
    location: Option<string>,
    linkedin: Option<string>,
    summary: Option<string>,
    skills: seq<string>,
    truthBullets: seq<string>,
    resumeText: string)
}
