/**
 * The records the parsers of `class Git` produce. `time` is kept as the text git prints;
 * the conversion to a JavaScript `Date` is not part of this model.
 */
module GitInterface {
  import opened Wrappers

  /** One branch of `git show-ref --heads`. */
  datatype Branch = Branch(name: string, latestCommit: string)

  /** What HEAD points at: a branch (`refs/heads/...`) or anything else, reported as a tag. */
  datatype HeadType = HeadCommit | HeadTag

  /** `name` is `None` where the JavaScript object holds `undefined`. */
  datatype Head = Head(headType: HeadType, name: Option<string>)

  /** One commit of `git log`, with the five fields of its format string. */
  datatype Commit = Commit(username: string, time: string, commitHash: string, treeHash: string, comment: string)

  /** One `status<TAB>path` line of `git log --name-status`. */
  datatype Item = Item(status: string, name: string)
}
