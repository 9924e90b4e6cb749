/** CHS geometry of a VHD (`computeGeometryForSize`), following the
    "CHS Calculation" appendix of the Virtual Hard Disk Image Format
    Specification. The source divides with floating point
    (`totalSectors / sectorsPerTrack`); every comparison and floor is
    restated here on integers. */
module VhdGeometry {
  import opened Wrappers

  const SectorSize: nat := 512
  /** 65535 cylinders * 16 heads * 255 sectors per track. */
  const MaxSectors: nat := 65535 * 16 * 255

  datatype Geometry = Geometry(cylinders: nat, heads: nat, sectorsPerTrack: nat, actualSize: nat)

  datatype GeometryError = DiskTooBig

  function CeilDiv(a: nat, b: nat): (r: nat)
    requires b > 0
    ensures r * b >= a && (r == 0 || (r - 1) * b < a)
  {
    (a + b - 1) / b
  }

  /** `Math.ceil(size / 512)`. */
  function TotalSectors(size: nat): nat
  {
    CeilDiv(size, SectorSize)
  }

  /** Cylinders are what is left of the sector count once divided by
      heads and sectors per track, rounded down. */
  function WithHeadsAndSectors(totalSectors: nat, heads: nat, sectorsPerTrack: nat): Geometry
    requires heads > 0 && sectorsPerTrack > 0
  {
    var cylinders := totalSectors / (heads * sectorsPerTrack);
    Geometry(cylinders, heads, sectorsPerTrack, cylinders * heads * sectorsPerTrack * SectorSize)
  }

  /** What a returned geometry promises for `totalSectors` sectors. */
  predicate ValidFor(g: Geometry, totalSectors: nat)
  {
    && 4 <= g.heads <= 16
    && g.sectorsPerTrack in {17, 31, 63, 255}
    && g.cylinders <= 65535
    && g.cylinders * g.heads * g.sectorsPerTrack <= totalSectors
    // no further cylinder fits
    && totalSectors < (g.cylinders + 1) * g.heads * g.sectorsPerTrack
    && g.actualSize == g.cylinders * g.heads * g.sectorsPerTrack * SectorSize
  }

  lemma DivisionBounds(t: nat, d: nat)
    requires d > 0
    ensures (t / d) * d <= t < (t / d + 1) * d
  {
  }

  lemma CylinderBound(t: nat, h: nat, s: nat, limit: nat)
    requires h > 0 && s > 0 && t < limit * h * s
    ensures t / (h * s) < limit
  {
    DivisionBounds(t, h * s);
    assert (t / (h * s)) * (h * s) <= t < limit * (h * s);
  }

  lemma WithHeadsAndSectorsValid(t: nat, h: nat, s: nat, limit: nat)
    requires 4 <= h <= 16 && s in {17, 31, 63, 255}
    requires limit <= 65536 && t < limit * h * s
    ensures ValidFor(WithHeadsAndSectors(t, h, s), t)
  {
    CylinderBound(t, h, s, limit);
    var c := t / (h * s);
    DivisionBounds(t, h * s);
    MulAssoc(c, h, s);
    MulAssoc(c + 1, h, s);
    assert c * h * s <= t < (c + 1) * h * s;
    assert c <= 65535;
  }

  lemma MulAssoc(a: int, b: int, c: int)
    ensures a * b * c == a * (b * c)
  {
  }

  /** `computeGeometryForSize`: fails exactly when the size needs more than
      65535*16*255 sectors, and otherwise returns a geometry in range. */
  function ComputeGeometry(size: nat): (r: Result<Geometry, GeometryError>)
    ensures r.Err? <==> TotalSectors(size) > MaxSectors
    ensures r.Ok? ==> ValidFor(r.value, TotalSectors(size))
  {
    var t := TotalSectors(size);
    if t > MaxSectors then
      Err(DiskTooBig)
    else if t >= 65535 * 16 * 63 then
      WithHeadsAndSectorsValid(t, 16, 255, 65536);
      Ok(WithHeadsAndSectors(t, 16, 255))
    else
      // heads = floor((t / 17 + 1023) / 1024), at least 4
      var h0 := (t + 1023 * 17) / (1024 * 17);
      var h := if h0 < 4 then 4 else h0;
      if t >= h * 1024 * 17 || h > 16 then
        if t >= 16 * 1024 * 31 then
          WithHeadsAndSectorsValid(t, 16, 63, 65535);
          Ok(WithHeadsAndSectors(t, 16, 63))
        else
          WithHeadsAndSectorsValid(t, 16, 31, 1024);
          Ok(WithHeadsAndSectors(t, 16, 31))
      else
        WithHeadsAndSectorsValid(t, h, 17, 1024);
        Ok(WithHeadsAndSectors(t, h, 17))
  }

  /** The aligned size never exceeds the requested size rounded up to a
      whole sector. */
  lemma ActualSizeWithinSectors(size: nat)
    requires ComputeGeometry(size).Ok?
    ensures ComputeGeometry(size).value.actualSize <= TotalSectors(size) * SectorSize
  {
  }

  /** The aligned size can exceed the requested size when the latter is not
      a whole number of sectors: 34305 bytes need 68 sectors = 1*4*17. */
  lemma ActualSizeCanExceedRequested()
    ensures ComputeGeometry(34305) == Ok(Geometry(1, 4, 17, 34816))
  {
  }
}
