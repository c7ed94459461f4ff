// EVP_MD_CTX between EVP_DigestInit and EVP_DigestFinal: the bytes fed so far. The digests themselves are not modelled;
// a hash is a function parameter wherever one is needed.
module Digest {
  import opened Bytes

  class DigestContext {
    var fed: Bytes

    constructor ()
      ensures fed == ""
    {
      fed := "";
    }

    method Update(bytes: Bytes)
      modifies this
      ensures fed == old(fed) + bytes
    {
      fed := fed + bytes;
    }
  }
}
