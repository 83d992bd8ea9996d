/**
 * What every command of `class Git` shares: the repository name the constructor settles on,
 * and the clean-up of a command's captured standard output before a parser reads it.
 */
module GitCommand {
  import opened JsString

  const GIT_SUFFIX := ".git"

  /**
   * The constructor's name rule: `.git` is appended unless the name already ends with it.
   * The result always ends with `.git`, extends the given name, and equals it exactly when
   * the name already ended with `.git`, so applying the rule twice changes nothing.
   */
  function WithGitSuffix(repoName: string): (r: string)
    ensures EndsWith(r, GIT_SUFFIX)
    ensures StartsWith(r, repoName)
    ensures r == repoName <==> EndsWith(repoName, GIT_SUFFIX)
  {
    if EndsWith(repoName, GIT_SUFFIX) then repoName else repoName + GIT_SUFFIX
  }

  /**
   * A handle on one repository. The source keeps `path.join(rootPath, repoName)`; the model
   * keeps the two halves, since the path library is not part of it.
   */
  class Git {
    var rootPath: string
    var repoName: string

    constructor (rootPath: string, repoName: string)
      ensures this.rootPath == rootPath
      ensures this.repoName == WithGitSuffix(repoName)
      ensures EndsWith(this.repoName, GIT_SUFFIX)
    {
      var name := repoName;
      if !EndsWith(name, GIT_SUFFIX) {
        name := name + GIT_SUFFIX;
      }
      this.rootPath := rootPath;
      this.repoName := name;
    }
  }

  /**
   * `data.replace(/\n$/, "")`: the captured output loses exactly one final line feed, if it
   * has one, before any parser sees it.
   */
  function TrimOutput(stdout: string): (data: string)
    ensures EndsWith(stdout, "\n") ==> data + "\n" == stdout
    ensures !EndsWith(stdout, "\n") ==> data == stdout
  {
    if EndsWith(stdout, "\n") then stdout[..|stdout| - 1] else stdout
  }

  /** Only one line feed goes, even when the text before it ends with another. */
  lemma TrimOneNewline(text: string)
    ensures TrimOutput(text + "\n") == text
    ensures TrimOutput(text + "\n\n") == text + "\n"
  {
    assert text + "\n\n" == (text + "\n") + "\n";
  }
}
