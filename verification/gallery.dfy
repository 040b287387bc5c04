/** The pictures `populateFullGallery` puts into the modal, and their link to the build's image pass. */
module Gallery {
  import opened Opt
  import Images

  datatype Image = Image(src: string, alt: string)

  /** One picture of the full gallery: its file stem (every one is a `.JPG`) and its description. */
  datatype Photo = Photo(stem: string, alt: string)

  const GalleryDir := "img/gallery/"

  function PhotoImage(p: Photo): Image {
    Image(GalleryDir + p.stem + ".JPG", p.alt)
  }

  const PhotoCount := 23

  /** The file stem of the `i`-th entry of `allGalleryImages`: seven letters and digits. */
  function Stem(i: nat): (r: string)
    requires i < PhotoCount
    ensures |r| == 7
  {
    match i
    case 0 => "DSF9200"
    case 1 => "DSF9194"
    case 2 => "DSF9190"
    case 3 => "DSF9188"
    case 4 => "DSF9185"
    case 5 => "DSF9179"
    case 6 => "XPN5438"
    case 7 => "XPN5433"
    case 8 => "XPN5406"
    case 9 => "XPN5343"
    case 10 => "XPN5340"
    case 11 => "XPN5334"
    case 12 => "XPN5333"
    case 13 => "XPN5316"
    case 14 => "XPN5307"
    case 15 => "XPN5304"
    case 16 => "XPN5246"
    case 17 => "DSF9227"
    case 18 => "DSF9225"
    case 19 => "DSF9220"
    case 20 => "DSF9216"
    case 21 => "DSF9214"
    case _ => "DSF9202"
  }

  /** The description of the `i`-th entry of `allGalleryImages`. */
  function Alt(i: nat): string
    requires i < PhotoCount
  {
    match i
    case 0 => "Young meerkat receiving veterinary care during rehabilitation at Chayah Kalahari Project"
    case 1 => "Meerkat mob socializing in natural Kalahari desert habitat during rehabilitation"
    case 2 => "Meerkat rehabilitation activities and survival skills training at Chayah facility"
    case 3 => "Stunning Kalahari desert landscape where meerkats are rehabilitated and released"
    case 4 => "Successful meerkat release back into the wild Kalahari desert environment"
    case 5 => "Conservation work and meerkat monitoring in the Kalahari desert ecosystem"
    case 6 => "Meerkat family group in their natural Kalahari desert environment"
    case 7 => "Meerkat standing guard while others forage in the desert landscape"
    case 8 => "Meerkat rehabilitation progress showing natural behaviors restored"
    case 9 => "Meerkat mob interaction and social bonding during rehabilitation"
    case 10 => "Meerkat exploring rehabilitated habitat in the Kalahari desert"
    case 11 => "Meerkat receiving specialized care and attention from conservation team"
    case 12 => "Meerkat showing natural foraging behaviors in desert environment"
    case 13 => "Meerkat family unit demonstrating successful rehabilitation outcomes"
    case 14 => "Meerkat social interaction and communication in natural habitat"
    case 15 => "Meerkat rehabilitation facility showing professional care standards"
    case 16 => "Meerkat release preparation and final health checks before return to wild"
    case 17 => "Meerkat conservation work and habitat monitoring in Kalahari desert"
    case 18 => "Meerkat rehabilitation success story showing natural behaviors"
    case 19 => "Meerkat family dynamics and social structure in rehabilitation"
    case 20 => "Meerkat adaptation to natural desert environment during rehabilitation"
    case 21 => "Meerkat conservation education and community outreach activities"
    case _ => "Meerkat rehabilitation facility and professional care environment"
  }

  function PhotoAt(i: nat): Photo
    requires i < PhotoCount
  {
    Photo(Stem(i), Alt(i))
  }

  /** `allGalleryImages`, in order. */
  function AllGalleryImages(): (r: seq<Image>)
    ensures |r| == PhotoCount
    ensures forall i :: 0 <= i < |r| ==> r[i] == PhotoImage(PhotoAt(i))
  {
    seq(PhotoCount, i requires 0 <= i < PhotoCount => PhotoImage(PhotoAt(i)))
  }

  /** Every picture the modal requests is a gallery file the build selects and
      encodes as JPEG at quality 80: its name ends in the upper-case `.JPG`,
      which the case-insensitive filter and the lower-cased extension accept. */
  lemma GalleryPhotosAreEncoded(i: nat)
    requires i < PhotoCount
    ensures AllGalleryImages()[i].src == GalleryDir + PhotoAt(i).stem + ".JPG"
    ensures Images.IsGalleryImage(PhotoAt(i).stem + ".JPG")
    ensures Images.GalleryEncoding(PhotoAt(i).stem + ".JPG") == Some(Images.PhotoEncoding)
  {
    Images.UpperJpgIsPhoto(PhotoAt(i).stem);
  }
}
