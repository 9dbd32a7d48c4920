/**
 * The constant tables of the AES implementation: the S-box, its inverse
 * (FIPS-197 sections 5.1.1 and 5.3.2) and the round-constant table used by
 * the key expansion (FIPS-197 section 5.2). Each table is a function of its
 * index, written as a match on the high and then the low four bits.
 */
module AesTables {
  import opened GaloisField

  /** `s_box[index]`, as read by `get_s_box_value`. */
  function SBox(index: bv8): bv8
  {
    var hi, lo := index >> 4, index & 0xF;
    match hi {
      case 0 => match lo { case 0 => 0x63 case 1 => 0x7c case 2 => 0x77 case 3 => 0x7b case 4 => 0xf2 case 5 => 0x6b case 6 => 0x6f case 7 => 0xc5 case 8 => 0x30 case 9 => 0x01 case 10 => 0x67 case 11 => 0x2b case 12 => 0xfe case 13 => 0xd7 case 14 => 0xab case _ => 0x76 }
      case 1 => match lo { case 0 => 0xca case 1 => 0x82 case 2 => 0xc9 case 3 => 0x7d case 4 => 0xfa case 5 => 0x59 case 6 => 0x47 case 7 => 0xf0 case 8 => 0xad case 9 => 0xd4 case 10 => 0xa2 case 11 => 0xaf case 12 => 0x9c case 13 => 0xa4 case 14 => 0x72 case _ => 0xc0 }
      case 2 => match lo { case 0 => 0xb7 case 1 => 0xfd case 2 => 0x93 case 3 => 0x26 case 4 => 0x36 case 5 => 0x3f case 6 => 0xf7 case 7 => 0xcc case 8 => 0x34 case 9 => 0xa5 case 10 => 0xe5 case 11 => 0xf1 case 12 => 0x71 case 13 => 0xd8 case 14 => 0x31 case _ => 0x15 }
      case 3 => match lo { case 0 => 0x04 case 1 => 0xc7 case 2 => 0x23 case 3 => 0xc3 case 4 => 0x18 case 5 => 0x96 case 6 => 0x05 case 7 => 0x9a case 8 => 0x07 case 9 => 0x12 case 10 => 0x80 case 11 => 0xe2 case 12 => 0xeb case 13 => 0x27 case 14 => 0xb2 case _ => 0x75 }
      case 4 => match lo { case 0 => 0x09 case 1 => 0x83 case 2 => 0x2c case 3 => 0x1a case 4 => 0x1b case 5 => 0x6e case 6 => 0x5a case 7 => 0xa0 case 8 => 0x52 case 9 => 0x3b case 10 => 0xd6 case 11 => 0xb3 case 12 => 0x29 case 13 => 0xe3 case 14 => 0x2f case _ => 0x84 }
      case 5 => match lo { case 0 => 0x53 case 1 => 0xd1 case 2 => 0x00 case 3 => 0xed case 4 => 0x20 case 5 => 0xfc case 6 => 0xb1 case 7 => 0x5b case 8 => 0x6a case 9 => 0xcb case 10 => 0xbe case 11 => 0x39 case 12 => 0x4a case 13 => 0x4c case 14 => 0x58 case _ => 0xcf }
      case 6 => match lo { case 0 => 0xd0 case 1 => 0xef case 2 => 0xaa case 3 => 0xfb case 4 => 0x43 case 5 => 0x4d case 6 => 0x33 case 7 => 0x85 case 8 => 0x45 case 9 => 0xf9 case 10 => 0x02 case 11 => 0x7f case 12 => 0x50 case 13 => 0x3c case 14 => 0x9f case _ => 0xa8 }
      case 7 => match lo { case 0 => 0x51 case 1 => 0xa3 case 2 => 0x40 case 3 => 0x8f case 4 => 0x92 case 5 => 0x9d case 6 => 0x38 case 7 => 0xf5 case 8 => 0xbc case 9 => 0xb6 case 10 => 0xda case 11 => 0x21 case 12 => 0x10 case 13 => 0xff case 14 => 0xf3 case _ => 0xd2 }
      case 8 => match lo { case 0 => 0xcd case 1 => 0x0c case 2 => 0x13 case 3 => 0xec case 4 => 0x5f case 5 => 0x97 case 6 => 0x44 case 7 => 0x17 case 8 => 0xc4 case 9 => 0xa7 case 10 => 0x7e case 11 => 0x3d case 12 => 0x64 case 13 => 0x5d case 14 => 0x19 case _ => 0x73 }
      case 9 => match lo { case 0 => 0x60 case 1 => 0x81 case 2 => 0x4f case 3 => 0xdc case 4 => 0x22 case 5 => 0x2a case 6 => 0x90 case 7 => 0x88 case 8 => 0x46 case 9 => 0xee case 10 => 0xb8 case 11 => 0x14 case 12 => 0xde case 13 => 0x5e case 14 => 0x0b case _ => 0xdb }
      case 10 => match lo { case 0 => 0xe0 case 1 => 0x32 case 2 => 0x3a case 3 => 0x0a case 4 => 0x49 case 5 => 0x06 case 6 => 0x24 case 7 => 0x5c case 8 => 0xc2 case 9 => 0xd3 case 10 => 0xac case 11 => 0x62 case 12 => 0x91 case 13 => 0x95 case 14 => 0xe4 case _ => 0x79 }
      case 11 => match lo { case 0 => 0xe7 case 1 => 0xc8 case 2 => 0x37 case 3 => 0x6d case 4 => 0x8d case 5 => 0xd5 case 6 => 0x4e case 7 => 0xa9 case 8 => 0x6c case 9 => 0x56 case 10 => 0xf4 case 11 => 0xea case 12 => 0x65 case 13 => 0x7a case 14 => 0xae case _ => 0x08 }
      case 12 => match lo { case 0 => 0xba case 1 => 0x78 case 2 => 0x25 case 3 => 0x2e case 4 => 0x1c case 5 => 0xa6 case 6 => 0xb4 case 7 => 0xc6 case 8 => 0xe8 case 9 => 0xdd case 10 => 0x74 case 11 => 0x1f case 12 => 0x4b case 13 => 0xbd case 14 => 0x8b case _ => 0x8a }
      case 13 => match lo { case 0 => 0x70 case 1 => 0x3e case 2 => 0xb5 case 3 => 0x66 case 4 => 0x48 case 5 => 0x03 case 6 => 0xf6 case 7 => 0x0e case 8 => 0x61 case 9 => 0x35 case 10 => 0x57 case 11 => 0xb9 case 12 => 0x86 case 13 => 0xc1 case 14 => 0x1d case _ => 0x9e }
      case 14 => match lo { case 0 => 0xe1 case 1 => 0xf8 case 2 => 0x98 case 3 => 0x11 case 4 => 0x69 case 5 => 0xd9 case 6 => 0x8e case 7 => 0x94 case 8 => 0x9b case 9 => 0x1e case 10 => 0x87 case 11 => 0xe9 case 12 => 0xce case 13 => 0x55 case 14 => 0x28 case _ => 0xdf }
      case _ => match lo { case 0 => 0x8c case 1 => 0xa1 case 2 => 0x89 case 3 => 0x0d case 4 => 0xbf case 5 => 0xe6 case 6 => 0x42 case 7 => 0x68 case 8 => 0x41 case 9 => 0x99 case 10 => 0x2d case 11 => 0x0f case 12 => 0xb0 case 13 => 0x54 case 14 => 0xbb case _ => 0x16 }
    }
  }

  /** `inverse_s_box[index]`, as read by `get_s_box_inverse`. */
  function InvSBox(index: bv8): bv8
  {
    var hi, lo := index >> 4, index & 0xF;
    match hi {
      case 0 => match lo { case 0 => 0x52 case 1 => 0x09 case 2 => 0x6a case 3 => 0xd5 case 4 => 0x30 case 5 => 0x36 case 6 => 0xa5 case 7 => 0x38 case 8 => 0xbf case 9 => 0x40 case 10 => 0xa3 case 11 => 0x9e case 12 => 0x81 case 13 => 0xf3 case 14 => 0xd7 case _ => 0xfb }
      case 1 => match lo { case 0 => 0x7c case 1 => 0xe3 case 2 => 0x39 case 3 => 0x82 case 4 => 0x9b case 5 => 0x2f case 6 => 0xff case 7 => 0x87 case 8 => 0x34 case 9 => 0x8e case 10 => 0x43 case 11 => 0x44 case 12 => 0xc4 case 13 => 0xde case 14 => 0xe9 case _ => 0xcb }
      case 2 => match lo { case 0 => 0x54 case 1 => 0x7b case 2 => 0x94 case 3 => 0x32 case 4 => 0xa6 case 5 => 0xc2 case 6 => 0x23 case 7 => 0x3d case 8 => 0xee case 9 => 0x4c case 10 => 0x95 case 11 => 0x0b case 12 => 0x42 case 13 => 0xfa case 14 => 0xc3 case _ => 0x4e }
      case 3 => match lo { case 0 => 0x08 case 1 => 0x2e case 2 => 0xa1 case 3 => 0x66 case 4 => 0x28 case 5 => 0xd9 case 6 => 0x24 case 7 => 0xb2 case 8 => 0x76 case 9 => 0x5b case 10 => 0xa2 case 11 => 0x49 case 12 => 0x6d case 13 => 0x8b case 14 => 0xd1 case _ => 0x25 }
      case 4 => match lo { case 0 => 0x72 case 1 => 0xf8 case 2 => 0xf6 case 3 => 0x64 case 4 => 0x86 case 5 => 0x68 case 6 => 0x98 case 7 => 0x16 case 8 => 0xd4 case 9 => 0xa4 case 10 => 0x5c case 11 => 0xcc case 12 => 0x5d case 13 => 0x65 case 14 => 0xb6 case _ => 0x92 }
      case 5 => match lo { case 0 => 0x6c case 1 => 0x70 case 2 => 0x48 case 3 => 0x50 case 4 => 0xfd case 5 => 0xed case 6 => 0xb9 case 7 => 0xda case 8 => 0x5e case 9 => 0x15 case 10 => 0x46 case 11 => 0x57 case 12 => 0xa7 case 13 => 0x8d case 14 => 0x9d case _ => 0x84 }
      case 6 => match lo { case 0 => 0x90 case 1 => 0xd8 case 2 => 0xab case 3 => 0x00 case 4 => 0x8c case 5 => 0xbc case 6 => 0xd3 case 7 => 0x0a case 8 => 0xf7 case 9 => 0xe4 case 10 => 0x58 case 11 => 0x05 case 12 => 0xb8 case 13 => 0xb3 case 14 => 0x45 case _ => 0x06 }
      case 7 => match lo { case 0 => 0xd0 case 1 => 0x2c case 2 => 0x1e case 3 => 0x8f case 4 => 0xca case 5 => 0x3f case 6 => 0x0f case 7 => 0x02 case 8 => 0xc1 case 9 => 0xaf case 10 => 0xbd case 11 => 0x03 case 12 => 0x01 case 13 => 0x13 case 14 => 0x8a case _ => 0x6b }
      case 8 => match lo { case 0 => 0x3a case 1 => 0x91 case 2 => 0x11 case 3 => 0x41 case 4 => 0x4f case 5 => 0x67 case 6 => 0xdc case 7 => 0xea case 8 => 0x97 case 9 => 0xf2 case 10 => 0xcf case 11 => 0xce case 12 => 0xf0 case 13 => 0xb4 case 14 => 0xe6 case _ => 0x73 }
      case 9 => match lo { case 0 => 0x96 case 1 => 0xac case 2 => 0x74 case 3 => 0x22 case 4 => 0xe7 case 5 => 0xad case 6 => 0x35 case 7 => 0x85 case 8 => 0xe2 case 9 => 0xf9 case 10 => 0x37 case 11 => 0xe8 case 12 => 0x1c case 13 => 0x75 case 14 => 0xdf case _ => 0x6e }
      case 10 => match lo { case 0 => 0x47 case 1 => 0xf1 case 2 => 0x1a case 3 => 0x71 case 4 => 0x1d case 5 => 0x29 case 6 => 0xc5 case 7 => 0x89 case 8 => 0x6f case 9 => 0xb7 case 10 => 0x62 case 11 => 0x0e case 12 => 0xaa case 13 => 0x18 case 14 => 0xbe case _ => 0x1b }
      case 11 => match lo { case 0 => 0xfc case 1 => 0x56 case 2 => 0x3e case 3 => 0x4b case 4 => 0xc6 case 5 => 0xd2 case 6 => 0x79 case 7 => 0x20 case 8 => 0x9a case 9 => 0xdb case 10 => 0xc0 case 11 => 0xfe case 12 => 0x78 case 13 => 0xcd case 14 => 0x5a case _ => 0xf4 }
      case 12 => match lo { case 0 => 0x1f case 1 => 0xdd case 2 => 0xa8 case 3 => 0x33 case 4 => 0x88 case 5 => 0x07 case 6 => 0xc7 case 7 => 0x31 case 8 => 0xb1 case 9 => 0x12 case 10 => 0x10 case 11 => 0x59 case 12 => 0x27 case 13 => 0x80 case 14 => 0xec case _ => 0x5f }
      case 13 => match lo { case 0 => 0x60 case 1 => 0x51 case 2 => 0x7f case 3 => 0xa9 case 4 => 0x19 case 5 => 0xb5 case 6 => 0x4a case 7 => 0x0d case 8 => 0x2d case 9 => 0xe5 case 10 => 0x7a case 11 => 0x9f case 12 => 0x93 case 13 => 0xc9 case 14 => 0x9c case _ => 0xef }
      case 14 => match lo { case 0 => 0xa0 case 1 => 0xe0 case 2 => 0x3b case 3 => 0x4d case 4 => 0xae case 5 => 0x2a case 6 => 0xf5 case 7 => 0xb0 case 8 => 0xc8 case 9 => 0xeb case 10 => 0xbb case 11 => 0x3c case 12 => 0x83 case 13 => 0x53 case 14 => 0x99 case _ => 0x61 }
      case _ => match lo { case 0 => 0x17 case 1 => 0x2b case 2 => 0x04 case 3 => 0x7e case 4 => 0xba case 5 => 0x77 case 6 => 0xd6 case 7 => 0x26 case 8 => 0xe1 case 9 => 0x69 case 10 => 0x14 case 11 => 0x63 case 12 => 0x55 case 13 => 0x21 case 14 => 0x0c case _ => 0x7d }
    }
  }

  /** `rcon[iteration]`, as read by `get_rcon_value`; the table has 255 entries. */
  function Rcon(iteration: nat): bv8
    requires iteration < 255
  {
    var hi, lo := iteration / 16, iteration % 16;
    match hi {
      case 0 => match lo { case 0 => 0x8d case 1 => 0x01 case 2 => 0x02 case 3 => 0x04 case 4 => 0x08 case 5 => 0x10 case 6 => 0x20 case 7 => 0x40 case 8 => 0x80 case 9 => 0x1b case 10 => 0x36 case 11 => 0x6c case 12 => 0xd8 case 13 => 0xab case 14 => 0x4d case _ => 0x9a }
      case 1 => match lo { case 0 => 0x2f case 1 => 0x5e case 2 => 0xbc case 3 => 0x63 case 4 => 0xc6 case 5 => 0x97 case 6 => 0x35 case 7 => 0x6a case 8 => 0xd4 case 9 => 0xb3 case 10 => 0x7d case 11 => 0xfa case 12 => 0xef case 13 => 0xc5 case 14 => 0x91 case _ => 0x39 }
      case 2 => match lo { case 0 => 0x72 case 1 => 0xe4 case 2 => 0xd3 case 3 => 0xbd case 4 => 0x61 case 5 => 0xc2 case 6 => 0x9f case 7 => 0x25 case 8 => 0x4a case 9 => 0x94 case 10 => 0x33 case 11 => 0x66 case 12 => 0xcc case 13 => 0x83 case 14 => 0x1d case _ => 0x3a }
      case 3 => match lo { case 0 => 0x74 case 1 => 0xe8 case 2 => 0xcb case 3 => 0x8d case 4 => 0x01 case 5 => 0x02 case 6 => 0x04 case 7 => 0x08 case 8 => 0x10 case 9 => 0x20 case 10 => 0x40 case 11 => 0x80 case 12 => 0x1b case 13 => 0x36 case 14 => 0x6c case _ => 0xd8 }
      case 4 => match lo { case 0 => 0xab case 1 => 0x4d case 2 => 0x9a case 3 => 0x2f case 4 => 0x5e case 5 => 0xbc case 6 => 0x63 case 7 => 0xc6 case 8 => 0x97 case 9 => 0x35 case 10 => 0x6a case 11 => 0xd4 case 12 => 0xb3 case 13 => 0x7d case 14 => 0xfa case _ => 0xef }
      case 5 => match lo { case 0 => 0xc5 case 1 => 0x91 case 2 => 0x39 case 3 => 0x72 case 4 => 0xe4 case 5 => 0xd3 case 6 => 0xbd case 7 => 0x61 case 8 => 0xc2 case 9 => 0x9f case 10 => 0x25 case 11 => 0x4a case 12 => 0x94 case 13 => 0x33 case 14 => 0x66 case _ => 0xcc }
      case 6 => match lo { case 0 => 0x83 case 1 => 0x1d case 2 => 0x3a case 3 => 0x74 case 4 => 0xe8 case 5 => 0xcb case 6 => 0x8d case 7 => 0x01 case 8 => 0x02 case 9 => 0x04 case 10 => 0x08 case 11 => 0x10 case 12 => 0x20 case 13 => 0x40 case 14 => 0x80 case _ => 0x1b }
      case 7 => match lo { case 0 => 0x36 case 1 => 0x6c case 2 => 0xd8 case 3 => 0xab case 4 => 0x4d case 5 => 0x9a case 6 => 0x2f case 7 => 0x5e case 8 => 0xbc case 9 => 0x63 case 10 => 0xc6 case 11 => 0x97 case 12 => 0x35 case 13 => 0x6a case 14 => 0xd4 case _ => 0xb3 }
      case 8 => match lo { case 0 => 0x7d case 1 => 0xfa case 2 => 0xef case 3 => 0xc5 case 4 => 0x91 case 5 => 0x39 case 6 => 0x72 case 7 => 0xe4 case 8 => 0xd3 case 9 => 0xbd case 10 => 0x61 case 11 => 0xc2 case 12 => 0x9f case 13 => 0x25 case 14 => 0x4a case _ => 0x94 }
      case 9 => match lo { case 0 => 0x33 case 1 => 0x66 case 2 => 0xcc case 3 => 0x83 case 4 => 0x1d case 5 => 0x3a case 6 => 0x74 case 7 => 0xe8 case 8 => 0xcb case 9 => 0x8d case 10 => 0x01 case 11 => 0x02 case 12 => 0x04 case 13 => 0x08 case 14 => 0x10 case _ => 0x20 }
      case 10 => match lo { case 0 => 0x40 case 1 => 0x80 case 2 => 0x1b case 3 => 0x36 case 4 => 0x6c case 5 => 0xd8 case 6 => 0xab case 7 => 0x4d case 8 => 0x9a case 9 => 0x2f case 10 => 0x5e case 11 => 0xbc case 12 => 0x63 case 13 => 0xc6 case 14 => 0x97 case _ => 0x35 }
      case 11 => match lo { case 0 => 0x6a case 1 => 0xd4 case 2 => 0xb3 case 3 => 0x7d case 4 => 0xfa case 5 => 0xef case 6 => 0xc5 case 7 => 0x91 case 8 => 0x39 case 9 => 0x72 case 10 => 0xe4 case 11 => 0xd3 case 12 => 0xbd case 13 => 0x61 case 14 => 0xc2 case _ => 0x9f }
      case 12 => match lo { case 0 => 0x25 case 1 => 0x4a case 2 => 0x94 case 3 => 0x33 case 4 => 0x66 case 5 => 0xcc case 6 => 0x83 case 7 => 0x1d case 8 => 0x3a case 9 => 0x74 case 10 => 0xe8 case 11 => 0xcb case 12 => 0x8d case 13 => 0x01 case 14 => 0x02 case _ => 0x04 }
      case 13 => match lo { case 0 => 0x08 case 1 => 0x10 case 2 => 0x20 case 3 => 0x40 case 4 => 0x80 case 5 => 0x1b case 6 => 0x36 case 7 => 0x6c case 8 => 0xd8 case 9 => 0xab case 10 => 0x4d case 11 => 0x9a case 12 => 0x2f case 13 => 0x5e case 14 => 0xbc case _ => 0x63 }
      case 14 => match lo { case 0 => 0xc6 case 1 => 0x97 case 2 => 0x35 case 3 => 0x6a case 4 => 0xd4 case 5 => 0xb3 case 6 => 0x7d case 7 => 0xfa case 8 => 0xef case 9 => 0xc5 case 10 => 0x91 case 11 => 0x39 case 12 => 0x72 case 13 => 0xe4 case 14 => 0xd3 case _ => 0xbd }
      case _ => match lo { case 0 => 0x61 case 1 => 0xc2 case 2 => 0x9f case 3 => 0x25 case 4 => 0x4a case 5 => 0x94 case 6 => 0x33 case 7 => 0x66 case 8 => 0xcc case 9 => 0x83 case 10 => 0x1d case 11 => 0x3a case 12 => 0x74 case 13 => 0xe8 case _ => 0xcb }
    }
  }

  /** The inverse S-box undoes the S-box. */
  lemma SBoxInverse(x: bv8)
    ensures InvSBox(SBox(x)) == x
  {
  }

  /** The S-box undoes the inverse S-box. */
  lemma InvSBoxInverse(x: bv8)
    ensures SBox(InvSBox(x)) == x
  {
  }

  /**
   * The first row of the round-constant table holds the powers of x in GF(2^8),
   * entry i being x^(i-1): each entry is XTime of the one before.
   */
  lemma RconPowersOfX(i: nat)
    requires i < 15
    ensures Rcon(i + 1) == XTime(Rcon(i))
  {
  }

  /** The ten constants AES-128 uses, {01} to {36}. */
  lemma RconFirstTen()
    ensures Rcon(1) == 0x01 && Rcon(2) == 0x02 && Rcon(3) == 0x04 && Rcon(4) == 0x08 && Rcon(5) == 0x10
    ensures Rcon(6) == 0x20 && Rcon(7) == 0x40 && Rcon(8) == 0x80 && Rcon(9) == 0x1b && Rcon(10) == 0x36
  {
  }
}
