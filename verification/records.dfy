/**
 * The shape of the résumé document (`ResumeData` and its parts). Every field
 * marked optional in the TypeScript interfaces is an `Option`; `patents` is an
 * `Option` as well, because the page tests it for presence before use.
 */
module Records {
  import opened Wrappers

  datatype Profile = Profile(
    name: string,
    title: string,
    affiliation: string,
    email: string,
    phone: string,
    bio: string,
    researchInterests: seq<string>,
    avatarUrl: Option<string>)

  datatype Education = Education(
    degree: string,
    institution: string,
    period: string,
    major: Option<string>)

  datatype Experience = Experience(
    role: string,
    institution: string,
    department: Option<string>,
    period: string)

  datatype Project = Project(
    title: string,
    role: string,
    period: string,
    source: string,
    code: string,
    funding: Option<string>)

  datatype Publication = Publication(
    authors: string,
    title: string,
    venue: string,
    year: string,
    tags: Option<seq<string>>,
    isCorresponding: Option<bool>)

  datatype Patent = Patent(
    inventors: string,
    title: string,
    date: string,
    number: string,
    kind: string,
    country: Option<string>)

  datatype ResumeData = ResumeData(
    profile: Profile,
    education: seq<Education>,
    experience: seq<Experience>,
    projects: seq<Project>,
    publications: seq<Publication>,
    patents: Option<seq<Patent>>)

  /**
   * JavaScript truthiness of an optional text field, as `{field && ...}`
   * tests it: present and not the empty string.
   */
  predicate Truthy(field: Option<string>) {
    field.Some? && field.value != ""
  }
}
