/**
 * The post-delete hook `remove_images` (dendo/dendo_users/signals.py), as an
 * explicit operation on the file storage, run with the deleted account.
 */
module Signals {

  import opened Models
  import Storage

  /** The stored files of `u`'s avatar and banner, for those that are set. */
  function ImageFiles(u: User): (paths: set<Storage.Path>)
    ensures forall p :: p in paths <==>
      (HasImage(u.avatar) && p == u.avatar.value) || (HasImage(u.banner) && p == u.banner.value)
  {
    (if HasImage(u.avatar) then {u.avatar.value} else {}) + (if HasImage(u.banner) then {u.banner.value} else {})
  }

  /**
   * `remove_images`: delete the avatar's file if one is set, then the banner's;
   * no other file is touched and the record is not saved again.
   */
  method RemoveImages(storage: Storage.FileStorage, instance: User)
    modifies storage
    ensures storage.files == old(storage.files) - ImageFiles(instance)
    ensures !HasImage(instance.avatar) && !HasImage(instance.banner) ==> storage.files == old(storage.files)
  {
    if HasImage(instance.avatar) {
      storage.Delete(instance.avatar.value);
    }
    if HasImage(instance.banner) {
      storage.Delete(instance.banner.value);
    }
  }
}
