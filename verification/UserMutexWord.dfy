/** The int32 lock word of a user mutex and its flag bits.

    A word is an int in two's complement; with Dafny's Euclidean division w / 4 and w % 4
    are its upper bits and its two lowest bits, for negative words too.  The functions
    below are the atomic_or / atomic_and masks the loader applies to a word. */
module UserMutexWord {

  /** B_USER_MUTEX_LOCKED, 0x01 */
  predicate Locked(w: int) { w % 4 == 1 || w % 4 == 3 }

  /** B_USER_MUTEX_WAITING, 0x02 */
  predicate Contended(w: int) { w % 4 >= 2 }

  /** B_USER_MUTEX_DISABLED, 0x04 */
  predicate Disabled(w: int) { w / 4 % 2 == 1 }

  /** The flags are the three lowest bits of the word. */
  lemma Flags(w: int)
    ensures w % 8 == (if Locked(w) then 1 else 0) + (if Contended(w) then 2 else 0) + (if Disabled(w) then 4 else 0)
  {
  }

  function OrLocked(w: int): (r: int)
    ensures Locked(r) && Contended(r) == Contended(w) && r / 4 == w / 4
  {
    if Locked(w) then w else 4 * (w / 4) + if Contended(w) then 3 else 1
  }

  function AndNotLocked(w: int): (r: int)
    ensures !Locked(r) && Contended(r) == Contended(w) && r / 4 == w / 4
  {
    if Locked(w) then 4 * (w / 4) + if Contended(w) then 2 else 0 else w
  }

  function OrContended(w: int): (r: int)
    ensures Contended(r) && Locked(r) == Locked(w) && r / 4 == w / 4
  {
    if Contended(w) then w else 4 * (w / 4) + if Locked(w) then 3 else 2
  }

  function AndNotContended(w: int): (r: int)
    ensures !Contended(r) && Locked(r) == Locked(w) && r / 4 == w / 4
  {
    if Contended(w) then 4 * (w / 4) + if Locked(w) then 1 else 0 else w
  }
}
