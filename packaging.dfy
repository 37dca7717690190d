/**
  The packaging helpers the constraint engine calls but does not define:
  `parse_requirement` (requirement syntax of PEP 508), the `version in
  requirement` test (the "Version specifiers" section of PEP 440),
  `normalize_name` (the "Normalized Names" section of PEP 503) and
  `splitext_archive`. Nothing is assumed about them beyond their types: the
  model takes them as a parameter, so every property proved here holds for
  every implementation of them.
 */
module Packaging {
  import opened Wrappers

  /**
    A parsed requirement line: the project name it constrains and its
    version specifier, kept as text because only `VersionIn` interprets it.
   */
  datatype Requirement = Requirement(projectName: string, specifier: string)

  datatype Library = Library(
    /** `parse_requirement`: a requirement, or the parser's error message. */
    parseRequirement: string -> Result<Requirement, string>,
    /** `version in requirement`: does the version satisfy the requirement's specifier? */
    versionIn: (Requirement, string) -> bool,
    /** `normalize_name` */
    normalizeName: string -> string,
    /** `splitext_archive`: a file name split into its base and its archive extension. */
    splitextArchive: string -> (string, string))
}
