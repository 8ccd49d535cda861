/**
  The GitLab objects the scripts read through the REST client, as values:
  the projects on the server, their issues and merge requests. An issue is
  an object because the spend script adds notes to it.
*/
module Gitlab {

  /** A project issue: what the fetch script reads, and its notes. */
  class Issue {
    const iid: int
    const title: string
    const state: string
    var notes: seq<string>

    constructor (iid: int, title: string, state: string)
      ensures this.iid == iid && this.title == title && this.state == state
      ensures notes == []
    {
      this.iid := iid;
      this.title := title;
      this.state := state;
      notes := [];
    }

    /**
      issue.notes.create({'body': body}). Whether the server accepts the
      note is decided outside the program, so it is a parameter; a rejected
      note leaves the issue as it was.
    */
    method CreateNote(body: string, accepted: bool)
      modifies this
      ensures notes == old(notes) + (if accepted then [body] else [])
    {
      if accepted {
        notes := notes + [body];
      }
    }
  }

  /** A merge request: its title and the issues it closes, in order. */
  datatype MergeRequest = MergeRequest(title: string, closesIssues: seq<Issue>)

  /** A project: issues and merge requests by their project-local id. */
  datatype Project = Project(issues: map<int, Issue>, mergeRequests: map<int, MergeRequest>)

  /** The projects the configured server holds, by project id. */
  type Server = map<int, Project>

  /** Every issue object reachable from the server. */
  function AllIssues(server: Server): set<Issue> {
    set pid, iid | pid in server && iid in server[pid].issues :: server[pid].issues[iid]
  }
}
