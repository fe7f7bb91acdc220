/** Return values of the calls that copy trees, and of the callbacks of a tree walk. */
module WalkCodes {

  const SUCCESS := 0
  const ERROR := -1
  const FTW_CONTINUE := 0
  const FTW_STOP := 1
}
