/** The records the web client receives from the API. */
module Types {
  import opened Wrappers

  type Id = string

  datatype Staff = Staff(id: Id, name: string)

  /** A task as listed by the API; `theme` and `jiraUrl` are optional. */
  datatype Task = Task(id: Id, name: string, mandays: int, jiraUrl: Option<string>, theme: Option<string>)
}
