/** What `kprintf` prints, `simple_strtoull` reads back; and the two decimal printers agree. */
module TextRoundTrip {
  import opened NumberText
  import opened StringToNumber
  import opened Printing
  import opened Formats
  import opened BootText

  /** `%llu` read in base 0 or 10. */
  lemma PrintedDecimalParses(v: nat, base: int)
    requires v <= UINT64_MAX && (base == 0 || base == 10)
    ensures var r := Render("%llu", [Number(v)]); r.Full? && Parse(r.text, base) == (v, |r.text|)
  {
    RenderOne("%llu", 2, 'u', Number(v));
    DecimalRoundTrip(v, base);
  }

  /** `%llx` and `%llX` read in base 16. */
  lemma PrintedHexParses(v: nat, upper: bool)
    requires v <= UINT64_MAX
    ensures var r := Render(if upper then "%llX" else "%llx", [Number(v)]);
      r.Full? && Parse(r.text, 16) == (v, |r.text|)
  {
    if upper { RenderOne("%llX", 2, 'X', Number(v)); } else { RenderOne("%llx", 2, 'x', Number(v)); }
    HexRoundTrip(v, upper);
  }

  /** Below 2^31 the boot text of a size is its `%d` text. */
  lemma BootTextIsPrintedText(size: nat)
    requires size < 0x8000_0000
    ensures Render("%d", [Number(size)]) == Full(SizeText(size))
  {
    RenderOne("%d", 0, 'd', Number(size));
    SizeTextRightIff(size);
  }
}
