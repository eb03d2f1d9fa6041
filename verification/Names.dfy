/** What requests and deletes do to the set of registered buffer names. */
module Names {

  /** How the kernel answers a request: refused, accepted, or failed with the name left behind. */
  datatype Answer = Refuse | Accept | FailNamed

  function AfterRequest(names: set<string>, name: string, answer: Answer): set<string> {
    if answer.Refuse? then names else names + {name}
  }

  function AfterDelete(names: set<string>, name: string): set<string> {
    names - {name}
  }
}
