/** The optional value used wherever the bot's code either produces something
    or nothing (a parse that fails, a trigger that never matches). */
module Wrappers {
  datatype Option<+T> = None | Some(value: T)
}
