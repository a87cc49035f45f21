/** The parts of a 64-bit Mach-O header that the kernel collection tools read and rewrite. */
module KcModel {
  import opened Values

  datatype Section = Section(name: string, addr: u64, size: u64, offset: u32, reloff: u32, nreloc: u32)

  datatype LoadCommand =
    | Segment(name: string, vmaddr: u64, vmsize: u64, fileoff: u64, filesize: u64, sections: seq<Section>)
    | Symtab(symoff: u32, stroff: u32)
    | Dysymtab(tocoff: u32, modtaboff: u32, extrefsymoff: u32, indirectsymoff: u32, extreloff: u32, locreloff: u32)
    | SplitInfo(dataoff: u32)
    | Other(cmd: u32)
    | Forced0(was: LoadCommand)   // the type of the command overwritten by 0
}
