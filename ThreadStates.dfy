/** The lifecycle state of a connection handler: LIVE from construction
    until its connection is closed, DEAD afterwards. */
module ThreadStates {

  datatype ThreadState = Live | Dead
}
