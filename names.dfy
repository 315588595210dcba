/**
 * Validity of item paths and listing entry names (SmbUtils, ShareUtils).
 * Both checks compare the WHOLE string; neither looks at its segments.
 */
module ItemNames {
  /** The two coexisting code revisions: the newer Smb* classes and the older Shared* classes. */
  datatype Revision = SmbRevision | SharedRevision

  /** SmbUtils.isValidSmbItemName: everything except ".", ".." and "/". */
  predicate IsValidSmbItemName(itemName: string) {
    itemName != "." && itemName != ".." && itemName != "/"
  }

  /** ShareUtils.isValidSharedItemName: everything except "." and "..". */
  predicate IsValidSharedItemName(fileName: string) {
    fileName != "." && fileName != ".."
  }

  /** The check each revision applies in its constructors and its listing loop. */
  predicate IsValidItemName(rev: Revision, name: string) {
    match rev
    case SmbRevision => IsValidSmbItemName(name)
    case SharedRevision => IsValidSharedItemName(name)
  }

  /** The names both revisions reject, and the one only the Smb revision rejects. */
  lemma RejectedNames(rev: Revision)
    ensures !IsValidItemName(rev, ".") && !IsValidItemName(rev, "..")
    ensures !IsValidSmbItemName("/") && IsValidSharedItemName("/")
  {
  }

  /**
   * The checks are whole-string comparisons: the root path "", names that only contain
   * a separator or "..", and ordinary names all pass in both revisions.
   */
  lemma AcceptedNames(rev: Revision)
    ensures IsValidItemName(rev, "")
    ensures IsValidItemName(rev, "a/../b") && IsValidItemName(rev, "./x") && IsValidItemName(rev, "/a")
    ensures IsValidItemName(rev, "Directory") && IsValidItemName(rev, "File.txt")
  {
  }

  /** The Smb check is the Shared check plus exactly one more rejected string, "/". */
  lemma SmbCheckIsSharedCheckMinusSlash(s: string)
    ensures IsValidSmbItemName(s) ==> IsValidSharedItemName(s)
    ensures IsValidSharedItemName(s) && !IsValidSmbItemName(s) <==> s == "/"
  {
  }
}
