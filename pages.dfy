/**
 * The page components and icon glyphs a tab refers to. The store only ever
 * holds a reference to them, so each is an opaque tag here.
 */
module Pages {
  /** The topical pages: home, tourism, food, transport, history, gallery. */
  datatype Page = Beranda | Wisata | Kuliner | Transportasi | Sejarah | Galeri

  /** The lucide-react icons passed to the store alongside a page. */
  datatype Icon = HomeIcon | Landmark | UtensilsCrossed | Train | ScrollText | ImagesIcon
}
