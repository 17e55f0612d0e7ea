/** The Todo record: a mutable object that the store creates and updates in place. */
module Entities {

  /** Milliseconds since the epoch, the reading a JavaScript clock gives. */
  type Timestamp = int

  class Todo {
    var id: int
    var title: string
    var completed: bool
    var createdAt: Timestamp

    /** new Todo(title). The constructor reads the clock twice: `clock` is the
        value of Date.now() that becomes the provisional id, `now` the moment
        captured as createdAt. The title is stored exactly as given and a new
        todo starts out not completed. */
    constructor (title: string, clock: int, now: Timestamp)
      ensures this.title == title
      ensures !completed
      ensures id == clock && createdAt == now
    {
      id := clock;
      this.title := title;
      completed := false;
      createdAt := now;
    }
  }
}
