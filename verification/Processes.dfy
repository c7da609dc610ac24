/** What the scheduler queues. */
module Processes {
  datatype Priority = Low | Regular | High | Critical | System

  class KernelProcess {
    const pid: int
    const priority: Priority
    var timesRan: nat

    constructor (pid: int, priority: Priority)
      ensures this.pid == pid && this.priority == priority && timesRan == 0
    {
      this.pid := pid;
      this.priority := priority;
      timesRan := 0;
    }
  }
}
