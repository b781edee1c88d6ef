/** When a snapshot still sees a block that was written in one epoch and deleted in another. */
module Epochs {

  /** A block lives in the epochs [created, deleted); a snapshot taken at epoch s sees it if
      s lies in them. */
  predicate Sees(s: nat, created: nat, deleted: nat) {
    created <= s < deleted
  }

  /** No live snapshot sees the block. */
  predicate Deleteable(live: set<nat>, created: nat, deleted: nat) {
    forall s :: s in live ==> !Sees(s, created, deleted)
  }
}
