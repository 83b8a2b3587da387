/** One-shot signals from a view-model to its screen, and the shape of a
    handler's effect. */
module UiEvents {
  import UserDao

  datatype UiEvent = ShowToast(message: string) | NavigationSuccess

  /** What one handler leaves behind, its coroutine run to completion: the
      new UI state, the table, and the events emitted, in order. */
  datatype Step<S> = Step(state: S, table: UserDao.Table, events: seq<UiEvent>)
}
