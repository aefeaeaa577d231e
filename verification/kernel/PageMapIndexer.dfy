/** kernel/src/Paging/PageMapindexer.cpp: a virtual address split into four table indices. */
module PageMapIndexerModel {
  import opened BitWords
  import opened PageTree

  class PageMapIndexer {
    var PDP_i: nat
    var PD_i: nat
    var PT_i: nat
    var P_i: nat

    constructor (virtualAddress: u64)
      ensures [PDP_i, PD_i, PT_i, P_i] == PathOf(virtualAddress / 0x1000)
    {
      PowerValues();
      var address := Shr(virtualAddress, 12);
      ShrDivides(virtualAddress, 12);
      P_i := And(address, 0x1ff);
      AndLowMask(address, 9);

      ShrDivides(address, 9);
      address := Shr(address, 9);
      PT_i := And(address, 0x1ff);
      AndLowMask(address, 9);

      ShrDivides(address, 9);
      address := Shr(address, 9);
      PD_i := And(address, 0x1ff);
      AndLowMask(address, 9);

      ShrDivides(address, 9);
      address := Shr(address, 9);
      PDP_i := And(address, 0x1ff);
      AndLowMask(address, 9);
    }
  }
}
